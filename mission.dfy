/**
 * The mission state machine of python/zeroLatency/Main2019.py: the main
 * loop that, once per cycle, refreshes the game state, consults the
 * controller and moves `controller.state` through the legs of a mission
 * (fetch a healthy hive, fetch a diseased one, deliver home or to the
 * enemy, turn, drive straight).
 *
 * The controller's predicates and the game snapshot are this cycle's
 * `Inputs`; what the loop asks the controller to do is recorded as a
 * sequence of `Action`s. The loop's globals, together with
 * `controller.state`, are the `Memory`.
 */
module Mission {
  import opened Common

  /** `State` of the mission. */
  datatype State = GetHealthyHive | GetDiseasedHive | Home | EnemyHome | GetTurn | GetStraight | HomeTurn | EnemyHomeTurn

  /**
   * What one cycle reads from outside: the DOWN button, the clock (in
   * milliseconds), whether the packet was well formed, the game snapshot
   * and the controller's answers for this cycle.
   */
  datatype Inputs = Inputs(
    buttonDown: bool,
    now: int,
    packetOk: bool,
    gameOn: bool,
    robotAlive: bool,
    healthyHive: Option<Point>,
    diseasedHive: Option<Point>,
    homeCorner: Point,
    enemyCorner: Point,
    stateChanged: bool,
    atEps: bool,
    atNear: bool,
    atHist: bool,
    turned: bool)

  /** The calls the loop makes on the controller and its chassis. */
  datatype Action =
    | Update(target: Option<Point>)
    | SetTarget(p: Point)
    | ChassisRobotDie
    | SetSpeedToZero
    | ResetPidTurn
    | UpdatePidTurn
    | ResetPidStraight
    | UpdatePidStraight
    | RunMotors
    | BreakMotors
    | RobotDie

  /**
   * The loop's state: `controller.state`, the globals `robotNearTargetOld`,
   * `timeNearTarget` (unbound until first assigned), `target` and
   * `timeOld`, and the global `state` that the straight leg assigns.
   */
  datatype Memory = Memory(
    state: State,
    nearTargetOld: bool,
    timeNearTarget: Option<int>,
    target: Option<Point>,
    timeOld: int,
    strayState: Option<State>)

  /** A cycle either completes, or raises `NameError` on the unbound `timeNearTarget`. */
  datatype CycleResult = Continue(mem: Memory, actions: seq<Action>) | NameError(actions: seq<Action>)

  /** The memory before the first cycle, with `t0` the clock reading of `timeOld = time()`. */
  function InitialMemory(t0: int): Memory
  {
    Memory(GetHealthyHive, false, None, None, t0, None)
  }

  /** The delivery point of a basket: its corner `topRight2` shifted by 270 right and 515 down. */
  function BasketTarget(corner: Point): Point
  {
    Point(corner.x + 270, corner.y - 515)
  }

  /** The game is on and the robot is alive: the state logic runs this cycle. */
  predicate Active(c: Inputs)
  {
    c.packetOk && c.gameOn && c.robotAlive
  }

  // ---------------------------------------------------------------------
  // One cycle, as a function

  /**
   * One pass of the loop body from memory `m` with this cycle's inputs `c`;
   * `timer` is `TIMER_NEAR_TARGET`.
   */
  function Cycle(m: Memory, c: Inputs, timer: int): (r: CycleResult)
    ensures c.packetOk <==> r.actions != []
    ensures c.packetOk ==> r.actions[0] == Update(m.target)
    ensures r.Continue? ==> r.mem.timeOld == c.now
    ensures r.NameError? ==> Active(c) && m.state == GetStraight
  {
    var loopTime := c.now - m.timeOld;
    var m := m.(timeOld := c.now);
    if !c.packetOk then Continue(m, [])
    else
      var pre := [Update(m.target)];
      if !(c.gameOn && c.robotAlive) then Continue(m, pre + [BreakMotors])
      else Leg(m, c, timer, loopTime, pre)
  }

  /** The branch of `Cycle` on `controller.state`, after the actions `pre`. */
  function Leg(m: Memory, c: Inputs, timer: int, loopTime: int, pre: seq<Action>): CycleResult
  {
    match m.state
    case GetHealthyHive => HealthyLeg(m, c, pre)
    case GetDiseasedHive => DiseasedLeg(m, c, pre)
    case Home => BasketLeg(m, c.homeCorner, c.atEps, HomeTurn, pre)
    case EnemyHome => BasketLeg(m, c.enemyCorner, c.atEps, EnemyHomeTurn, pre)
    case GetTurn => TurnLeg(m, c, pre)
    case GetStraight => StraightLeg(m, c, timer, loopTime, pre)
    case HomeTurn => Continue(m, pre + [RunMotors])
    case EnemyHomeTurn => Continue(m, pre + [RunMotors])
  }

  /** The healthy-hive leg of `Cycle`, after the actions `pre`. */
  function HealthyLeg(m: Memory, c: Inputs, pre: seq<Action>): (r: CycleResult)
    ensures r.Continue? && pre <= r.actions
    ensures r.mem.state in {GetDiseasedHive, GetTurn, Home}
    ensures r.mem.(state := m.state, nearTargetOld := m.nearTargetOld) == m
    ensures RunMotors in r.actions[|pre|..] <==> c.healthyHive.Some?
  {
    if c.healthyHive.None? then Continue(m.(state := GetDiseasedHive), pre)
    else
      var acts := pre + [SetTarget(c.healthyHive.value), RunMotors];
      if !c.atEps then Continue(m.(state := GetTurn, nearTargetOld := false), acts)
      else Continue(m.(state := Home), acts)
  }

  /** The diseased-hive leg of `Cycle`, after the actions `pre`. */
  function DiseasedLeg(m: Memory, c: Inputs, pre: seq<Action>): (r: CycleResult)
    ensures r.Continue? && pre <= r.actions && |r.actions| > |pre| && r.actions[|r.actions| - 1] == RunMotors
    ensures r.mem.state in {GetTurn, EnemyHome}
    ensures r.mem.(state := m.state, nearTargetOld := m.nearTargetOld) == m
    ensures ChassisRobotDie in r.actions[|pre|..] <==> c.diseasedHive.None?
  {
    var calls := (if c.diseasedHive.None? then [ChassisRobotDie] else [SetTarget(c.diseasedHive.value)]) + [RunMotors];
    var acts := pre + calls;
    assert acts[|pre|..] == calls;
    if !c.atEps then Continue(m.(state := GetTurn, nearTargetOld := false), acts)
    else Continue(m.(state := EnemyHome), acts)
  }

  /**
   * The leg to a basket whose corner is `corner`, after the actions `pre`;
   * `turn` is the state to enter while EPS (`atEps`) is not met.
   */
  function BasketLeg(m: Memory, corner: Point, atEps: bool, turn: State, pre: seq<Action>): (r: CycleResult)
    ensures r.Continue? && pre <= r.actions && SetTarget(BasketTarget(corner)) in r.actions[|pre|..]
    ensures r.mem.target == Some(BasketTarget(corner))
    ensures r.mem.state == (if atEps then GetHealthyHive else turn)
    ensures r.mem.(state := m.state, nearTargetOld := m.nearTargetOld, target := m.target) == m
  {
    var t := BasketTarget(corner);
    var acts := pre + [SetTarget(t), RunMotors];
    if !atEps then Continue(m.(target := Some(t), state := turn, nearTargetOld := false), acts)
    else Continue(m.(target := Some(t), state := GetHealthyHive), acts)
  }

  /** The turning leg of `Cycle`, after the actions `pre`. */
  function TurnLeg(m: Memory, c: Inputs, pre: seq<Action>): (r: CycleResult)
    ensures r.Continue? && pre <= r.actions && |r.actions| > |pre| && r.actions[|r.actions| - 1] == RunMotors
    ensures r.mem.(state := m.state) == m
    ensures r.mem.state == GetStraight || r.mem == m
    ensures ResetPidTurn in r.actions[|pre|..] <==> c.stateChanged
  {
    var reset := if c.stateChanged then [ResetPidTurn] else [];
    var calls := reset + (if c.turned then [RunMotors] else [UpdatePidTurn, RunMotors]);
    assert (pre + calls)[|pre|..] == calls;
    if c.turned then Continue(m.(state := GetStraight), pre + calls)
    else Continue(m, pre + calls)
  }

  /** The straight leg of `Cycle`, after the actions `pre`; `loopTime` is the time since the last cycle. */
  function StraightLeg(m: Memory, c: Inputs, timer: int, loopTime: int, pre: seq<Action>): (r: CycleResult)
    ensures pre <= r.actions
    ensures r.NameError? ==> m.timeNearTarget.None? && !c.stateChanged && (m.nearTargetOld || !c.atNear)
    ensures r.Continue? ==>
      && r.mem.(timeNearTarget := m.timeNearTarget, nearTargetOld := m.nearTargetOld, strayState := m.strayState) == m
      && r.mem.nearTargetOld == c.atNear && (!c.atHist ==> r.mem.timeNearTarget.Some?)
  {
    var acts := pre + (if c.stateChanged then [ResetPidStraight] else []);
    var armed := if c.stateChanged || (!m.nearTargetOld && c.atNear) then Some(timer) else m.timeNearTarget;
    if c.atNear && armed.None? then NameError(acts)
    else
      var t := if c.atNear then Some(armed.value - loopTime) else armed;
      var m := m.(timeNearTarget := t, nearTargetOld := c.atNear);
      if c.atHist then Continue(m.(strayState := Some(Home)), acts + [SetSpeedToZero, RunMotors])
      else if t.None? then NameError(acts)
      else if t.value < 0 then Continue(m.(strayState := Some(GetTurn)), acts + [SetSpeedToZero, RunMotors])
      else Continue(m, acts + [UpdatePidStraight, RunMotors])
  }

  // ---------------------------------------------------------------------
  // The whole loop, as a function

  /** How the loop ends: DOWN pressed, a `NameError`, or still running when the inputs run out. */
  datatype Exit = Stopped | Crashed | Running

  /** The actions of a run, how it ended, and the memory at its end (before the failing cycle on a crash). */
  datatype Trace = Trace(actions: seq<Action>, exit: Exit, mem: Memory)

  /** The loop `while doMainLoop and not btn.down`, then `controller.robotDie()`, over the inputs `cs`. */
  function Run(m: Memory, cs: seq<Inputs>, timer: int): (t: Trace)
    ensures t.exit == Running ==> forall i :: 0 <= i < |cs| ==> !cs[i].buttonDown
    decreases |cs|
  {
    if |cs| == 0 then Trace([], Running, m)
    else if cs[0].buttonDown then Trace([RobotDie], Stopped, m)
    else match Cycle(m, cs[0], timer)
      case NameError(a) => Trace(a, Crashed, m)
      case Continue(m', a) =>
        var t := Run(m', cs[1..], timer);
        Trace(a + t.actions, t.exit, t.mem)
  }

  // ---------------------------------------------------------------------
  // What one cycle does

  /** A malformed packet changes nothing but the clock and asks nothing of the controller. */
  lemma BadPacketKeepsMemory(m: Memory, c: Inputs, timer: int)
    requires !c.packetOk
    ensures Cycle(m, c, timer) == Continue(m.(timeOld := c.now), [])
  {
  }

  /** With the game off or the robot not alive, the motors are braked and only the clock changes. */
  lemma InactiveBrakes(m: Memory, c: Inputs, timer: int)
    requires c.packetOk && !(c.gameOn && c.robotAlive)
    ensures Cycle(m, c, timer) == Continue(m.(timeOld := c.now), [Update(m.target), BreakMotors])
  {
  }

  /**
   * Fetching a healthy hive: with none left the state becomes
   * `GetDiseasedHive` and the motors are not run this cycle; otherwise the
   * hive becomes the controller's target and the state becomes `GetTurn`
   * (clearing the near flag) when EPS is not met, `Home` when it is.
   */
  lemma HealthyHiveStep(m: Memory, c: Inputs, timer: int)
    requires Active(c) && m.state == GetHealthyHive
    ensures var r := Cycle(m, c, timer);
      && r.Continue? && r.mem.target == m.target && r.mem.timeNearTarget == m.timeNearTarget
      && (c.healthyHive.None? ==> r.mem.state == GetDiseasedHive && RunMotors !in r.actions && r.mem.nearTargetOld == m.nearTargetOld)
      && (c.healthyHive.Some? ==>
            && SetTarget(c.healthyHive.value) in r.actions && r.actions[|r.actions| - 1] == RunMotors
            && (!c.atEps ==> r.mem.state == GetTurn && !r.mem.nearTargetOld)
            && (c.atEps ==> r.mem.state == Home && r.mem.nearTargetOld == m.nearTargetOld))
  {
  }

  /**
   * Fetching a diseased hive: with none left `chassis.robotDie()` is called
   * and no target is set, and EPS is still consulted afterwards; the state
   * becomes `GetTurn` when EPS is not met and `EnemyHome` when it is.
   */
  lemma DiseasedHiveStep(m: Memory, c: Inputs, timer: int)
    requires Active(c) && m.state == GetDiseasedHive
    ensures var r := Cycle(m, c, timer);
      && r.Continue? && r.mem.target == m.target
      && (ChassisRobotDie in r.actions <==> c.diseasedHive.None?)
      && (forall p :: SetTarget(p) in r.actions <==> c.diseasedHive == Some(p))
      && (!c.atEps ==> r.mem.state == GetTurn && !r.mem.nearTargetOld)
      && (c.atEps ==> r.mem.state == EnemyHome)
  {
  }

  /**
   * Going home or to the enemy basket: the global target becomes the
   * basket's delivery point, which is also sent to the controller; the
   * state becomes the matching turn state when EPS is not met, and
   * `GetHealthyHive` when it is.
   */
  lemma BasketStep(m: Memory, c: Inputs, timer: int)
    requires Active(c) && (m.state == Home || m.state == EnemyHome)
    ensures var r := Cycle(m, c, timer);
      var t := BasketTarget(if m.state == Home then c.homeCorner else c.enemyCorner);
      && r.Continue? && r.mem.target == Some(t) && SetTarget(t) in r.actions
      && (!c.atEps ==> r.mem.state == (if m.state == Home then HomeTurn else EnemyHomeTurn) && !r.mem.nearTargetOld)
      && (c.atEps ==> r.mem.state == GetHealthyHive)
  {
  }

  /**
   * Turning: the turn PID is reset exactly when the state has just changed;
   * once turned the state becomes `GetStraight`, otherwise it stays and the
   * turn PID is updated.
   */
  lemma TurnStep(m: Memory, c: Inputs, timer: int)
    requires Active(c) && m.state == GetTurn
    ensures var r := Cycle(m, c, timer);
      && r.Continue? && r.mem.target == m.target && r.mem.nearTargetOld == m.nearTargetOld
      && (ResetPidTurn in r.actions <==> c.stateChanged)
      && (c.turned ==> r.mem.state == GetStraight && UpdatePidTurn !in r.actions)
      && (!c.turned ==> r.mem.state == GetTurn && UpdatePidTurn in r.actions)
  {
  }

  /**
   * Driving straight: the countdown is re-armed to `timer` on entry and on
   * the rising edge of NEAR, and runs down by the cycle time while NEAR
   * holds; the near flag becomes this cycle's NEAR. On HIST or an expired
   * countdown the speed is zeroed and only the stray global `state` takes
   * the new value: `controller.state` stays `GetStraight`.
   */
  lemma StraightStep(m: Memory, c: Inputs, timer: int)
    requires Active(c) && m.state == GetStraight
    requires Cycle(m, c, timer).Continue?
    ensures var r := Cycle(m, c, timer);
      var armed := if c.stateChanged || (!m.nearTargetOld && c.atNear) then Some(timer) else m.timeNearTarget;
      && r.mem.state == GetStraight && r.mem.target == m.target
      && r.mem.nearTargetOld == c.atNear
      && r.mem.timeNearTarget == (if c.atNear then Some(armed.value - (c.now - m.timeOld)) else armed)
      && (ResetPidStraight in r.actions <==> c.stateChanged)
      && (c.atHist ==> r.mem.strayState == Some(Home) && SetSpeedToZero in r.actions)
      && (!c.atHist && r.mem.timeNearTarget.value < 0 ==> r.mem.strayState == Some(GetTurn) && SetSpeedToZero in r.actions)
      && (!c.atHist && r.mem.timeNearTarget.value >= 0 ==> r.mem.strayState == m.strayState && UpdatePidStraight in r.actions)
  {
  }

  /** `HomeTurn` and `EnemyHomeTurn` have no branch: the motors run and nothing changes but the clock. */
  lemma DeliveryTurnStep(m: Memory, c: Inputs, timer: int)
    requires Active(c) && (m.state == HomeTurn || m.state == EnemyHomeTurn)
    ensures Cycle(m, c, timer) == Continue(m.(timeOld := c.now), [Update(m.target), RunMotors])
  {
  }

  // ---------------------------------------------------------------------
  // The countdown and the NameError

  /** The near flag is set only after the countdown has been bound. */
  ghost predicate TimerInv(m: Memory)
  {
    m.nearTargetOld ==> m.timeNearTarget.Some?
  }

  /** Every completed cycle keeps `TimerInv`. */
  lemma CycleKeepsTimerInv(m: Memory, c: Inputs, timer: int)
    requires TimerInv(m) && Cycle(m, c, timer).Continue?
    ensures TimerInv(Cycle(m, c, timer).mem)
  {
  }

  /**
   * Under `TimerInv` a cycle raises `NameError` exactly when the straight
   * leg runs with the countdown never bound, the state not just changed,
   * and neither NEAR nor HIST met: the test `timeNearTarget < 0` is then
   * the first read of the unbound name.
   */
  lemma NameErrorExactly(m: Memory, c: Inputs, timer: int)
    requires TimerInv(m)
    ensures Cycle(m, c, timer).NameError? <==>
      Active(c) && m.state == GetStraight && m.timeNearTarget.None? && !c.stateChanged && !c.atNear && !c.atHist
  {
  }

  // ---------------------------------------------------------------------
  // Whole runs

  /** A run keeps `TimerInv` up to its end. */
  lemma {:induction false} RunKeepsTimerInv(m: Memory, cs: seq<Inputs>, timer: int)
    requires TimerInv(m)
    ensures TimerInv(Run(m, cs, timer).mem)
    decreases |cs|
  {
    if |cs| > 0 && !cs[0].buttonDown && Cycle(m, cs[0], timer).Continue? {
      CycleKeepsTimerInv(m, cs[0], timer);
      RunKeepsTimerInv(Cycle(m, cs[0], timer).mem, cs[1..], timer);
    }
  }

  /** `GetStraight`, `HomeTurn` and `EnemyHomeTurn` are never left. */
  predicate Absorbing(s: State)
  {
    s == GetStraight || s == HomeTurn || s == EnemyHomeTurn
  }

  lemma CycleKeepsAbsorbing(m: Memory, c: Inputs, timer: int)
    requires Absorbing(m.state) && Cycle(m, c, timer).Continue?
    ensures Cycle(m, c, timer).mem.state == m.state
  {
  }

  /** Once the mission is in an absorbing state, `controller.state` never changes again, whatever the inputs. */
  lemma {:induction false} RunStaysAbsorbed(m: Memory, cs: seq<Inputs>, timer: int)
    requires Absorbing(m.state)
    ensures Run(m, cs, timer).mem.state == m.state
    decreases |cs|
  {
    if |cs| > 0 && !cs[0].buttonDown && Cycle(m, cs[0], timer).Continue? {
      CycleKeepsAbsorbing(m, cs[0], timer);
      RunStaysAbsorbed(Cycle(m, cs[0], timer).mem, cs[1..], timer);
    }
  }

  lemma CycleNeverRobotDie(m: Memory, c: Inputs, timer: int)
    ensures RobotDie !in Cycle(m, c, timer).actions
  {
    if Active(c) {
      var m', pre := m.(timeOld := c.now), [Update(m.target)];
      var loopTime := c.now - m.timeOld;
      assert Cycle(m, c, timer) == Leg(m', c, timer, loopTime, pre);
      LegNeverRobotDie(m', c, timer, loopTime, pre);
    }
  }

  /** No leg calls `controller.robotDie()` after actions that did not. */
  lemma LegNeverRobotDie(m: Memory, c: Inputs, timer: int, loopTime: int, pre: seq<Action>)
    requires RobotDie !in pre
    ensures RobotDie !in Leg(m, c, timer, loopTime, pre).actions
  {
    match m.state
    case GetHealthyHive => assert RobotDie !in HealthyLeg(m, c, pre).actions;
    case GetDiseasedHive => assert RobotDie !in DiseasedLeg(m, c, pre).actions;
    case Home => assert RobotDie !in BasketLeg(m, c.homeCorner, c.atEps, HomeTurn, pre).actions;
    case EnemyHome => assert RobotDie !in BasketLeg(m, c.enemyCorner, c.atEps, EnemyHomeTurn, pre).actions;
    case GetTurn => assert RobotDie !in TurnLeg(m, c, pre).actions;
    case GetStraight => assert RobotDie !in StraightLeg(m, c, timer, loopTime, pre).actions;
    case HomeTurn =>
    case EnemyHomeTurn =>
  }

  /**
   * `controller.robotDie()` is called exactly when the loop stops on the
   * DOWN button, and then as the very last action.
   */
  lemma {:induction false} RobotDieOnlyAtStop(m: Memory, cs: seq<Inputs>, timer: int)
    ensures var t := Run(m, cs, timer);
      && (RobotDie in t.actions <==> t.exit == Stopped)
      && (t.exit == Stopped ==> |t.actions| > 0 && t.actions[|t.actions| - 1] == RobotDie)
    decreases |cs|
  {
    if |cs| > 0 && !cs[0].buttonDown {
      CycleNeverRobotDie(m, cs[0], timer);
      if Cycle(m, cs[0], timer).Continue? {
        RobotDieOnlyAtStop(Cycle(m, cs[0], timer).mem, cs[1..], timer);
      }
    }
  }

  // ---------------------------------------------------------------------
  // The loop as the source runs it

  class MainLoop {
    /** `TIMER_NEAR_TARGET`, in milliseconds. */
    const timer: int

    var state: State
    var nearTargetOld: bool
    var timeNearTarget: Option<int>
    var target: Option<Point>
    var timeOld: int
    var strayState: Option<State>

    function Mem(): Memory
      reads this
    {
      Memory(state, nearTargetOld, timeNearTarget, target, timeOld, strayState)
    }

    /** The globals before the loop, `Controller(initialState=GET_HEALTHY_HIVE)`, and `timeOld = t0`. */
    constructor (timerNearTarget: int, t0: int)
      ensures timer == timerNearTarget && Mem() == InitialMemory(t0)
    {
      timer := timerNearTarget;
      state := GetHealthyHive;
      nearTargetOld := false;
      timeNearTarget := None;
      target := None;
      timeOld := t0;
      strayState := None;
    }

    /** One pass of the loop body; `crashed` reports the `NameError`. */
    method Step(c: Inputs) returns (actions: seq<Action>, crashed: bool)
      modifies this
      ensures var r := Cycle(old(Mem()), c, timer);
        && crashed == r.NameError? && actions == r.actions
        && (!crashed ==> Mem() == r.mem)
    {
      actions, crashed := [], false;
      var loopTime := c.now - timeOld;
      timeOld := c.now;
      if !c.packetOk {
        return;
      }
      actions := actions + [Update(target)];
      if !(c.gameOn && c.robotAlive) {
        actions := actions + [BreakMotors];
        return;
      }
      ghost var m := Mem();
      assert m == old(Mem()).(timeOld := c.now);
      assert actions == [Update(m.target)];
      assert Cycle(old(Mem()), c, timer) == Leg(m, c, timer, loopTime, actions);
      match state
      case GetHealthyHive =>
        actions := FetchHealthy(c, actions);
      case GetDiseasedHive =>
        actions := FetchDiseased(c, actions);
      case Home =>
        actions := GoToBasket(c.homeCorner, c.atEps, HomeTurn, actions);
      case EnemyHome =>
        actions := GoToBasket(c.enemyCorner, c.atEps, EnemyHomeTurn, actions);
      case GetTurn =>
        actions := Turn(c, actions);
      case GetStraight =>
        actions, crashed := DriveStraight(c, loopTime, actions);
      case HomeTurn =>
        actions := actions + [RunMotors];
      case EnemyHomeTurn =>
        actions := actions + [RunMotors];
    }

    /** `GET_HEALTHY_HIVE`, after the actions `pre`. */
    method FetchHealthy(c: Inputs, pre: seq<Action>) returns (actions: seq<Action>)
      modifies this
      ensures var r := HealthyLeg(old(Mem()), c, pre); Mem() == r.mem && actions == r.actions
    {
      actions := pre;
      if c.healthyHive.None? {
        state := GetDiseasedHive;
        return;
      }
      actions := actions + [SetTarget(c.healthyHive.value)];
      if !c.atEps {
        state := GetTurn;
        nearTargetOld := false;
      } else {
        state := Home;
      }
      actions := actions + [RunMotors];
    }

    /** `GET_DISEASED_HIVE`, after the actions `pre`. */
    method FetchDiseased(c: Inputs, pre: seq<Action>) returns (actions: seq<Action>)
      modifies this
      ensures var r := DiseasedLeg(old(Mem()), c, pre); Mem() == r.mem && actions == r.actions
    {
      actions := pre;
      if c.diseasedHive.None? {
        actions := actions + [ChassisRobotDie];
      } else {
        actions := actions + [SetTarget(c.diseasedHive.value)];
      }
      if !c.atEps {
        state := GetTurn;
        nearTargetOld := false;
      } else {
        state := EnemyHome;
      }
      actions := actions + [RunMotors];
    }

    /** `HOME` and `ENEMY_HOME`, after the actions `pre`. */
    method GoToBasket(corner: Point, atEps: bool, turn: State, pre: seq<Action>) returns (actions: seq<Action>)
      modifies this
      ensures var r := BasketLeg(old(Mem()), corner, atEps, turn, pre); Mem() == r.mem && actions == r.actions
    {
      var t := BasketTarget(corner);
      target := Some(t);
      actions := pre + [SetTarget(t)];
      if !atEps {
        state := turn;
        nearTargetOld := false;
      } else {
        state := GetHealthyHive;
      }
      actions := actions + [RunMotors];
    }

    /** `GET_TURN`, after the actions `pre`. */
    method Turn(c: Inputs, pre: seq<Action>) returns (actions: seq<Action>)
      modifies this
      ensures var r := TurnLeg(old(Mem()), c, pre); Mem() == r.mem && actions == r.actions
    {
      actions := pre;
      if c.stateChanged {
        actions := actions + [ResetPidTurn];
      }
      if c.turned {
        state := GetStraight;
      } else {
        actions := actions + [UpdatePidTurn];
      }
      actions := actions + [RunMotors];
    }

    /** `GET_STRAIGHT`, after the actions `pre`, `loopTime` after the previous cycle. */
    method DriveStraight(c: Inputs, loopTime: int, pre: seq<Action>) returns (actions: seq<Action>, crashed: bool)
      modifies this
      ensures var r := StraightLeg(old(Mem()), c, timer, loopTime, pre);
        && crashed == r.NameError? && actions == r.actions
        && (!crashed ==> Mem() == r.mem)
    {
      actions, crashed := pre, false;
      if c.stateChanged {
        actions := actions + [ResetPidStraight];
        timeNearTarget := Some(timer);
      }
      if !nearTargetOld && c.atNear {
        timeNearTarget := Some(timer);
      }
      if c.atNear {
        if timeNearTarget.None? {
          crashed := true;
          return;
        }
        timeNearTarget := Some(timeNearTarget.value - loopTime);
      }
      nearTargetOld := c.atNear;
      if c.atHist {
        actions := actions + [SetSpeedToZero];
        strayState := Some(Home);
      } else if timeNearTarget.None? {
        crashed := true;
        return;
      } else if timeNearTarget.value < 0 {
        actions := actions + [SetSpeedToZero];
        strayState := Some(GetTurn);
      } else {
        actions := actions + [UpdatePidStraight];
      }
      actions := actions + [RunMotors];
    }

    /**
     * The main loop over the inputs `cs`, one per cycle, and the final
     * `controller.robotDie()` once DOWN is pressed.
     */
    method Loop(cs: seq<Inputs>) returns (actions: seq<Action>, exit: Exit)
      modifies this
      ensures var t := Run(old(Mem()), cs, timer);
        && actions == t.actions && exit == t.exit
        && (exit != Crashed ==> Mem() == t.mem)
    {
      actions := [];
      var i := 0;
      while i < |cs| && !cs[i].buttonDown
        invariant 0 <= i <= |cs|
        invariant var t, u := Run(old(Mem()), cs, timer), Run(Mem(), cs[i..], timer);
          t == Trace(actions + u.actions, u.exit, u.mem)
        decreases |cs| - i
      {
        ghost var before := Mem();
        assert cs[i..][1..] == cs[i + 1..];
        var a, crashed := Step(cs[i]);
        actions := actions + a;
        if crashed {
          assert Run(before, cs[i..], timer) == Trace(a, Crashed, before);
          return actions, Crashed;
        }
        i := i + 1;
      }
      if i < |cs| {
        actions := actions + [RobotDie];
        return actions, Stopped;
      }
      assert actions + [] == actions;
      return actions, Running;
    }
  }
}
