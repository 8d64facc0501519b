/** Values shared by the planner and the mission controller. */
module Common {

  /** A value that may be absent (Python's `None`). */
  datatype Option<T> = None | Some(value: T)

  /** A point in game (arena) coordinates. */
  datatype Point = Point(x: int, y: int)
}
