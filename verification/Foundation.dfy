/** Values shared by all models. */
module Foundation {

  datatype Option<+T> = None | Some(value: T)

  /** The largest integer that a JavaScript number counts exactly. */
  const MAX_SAFE_INTEGER: int := 0x1F_FFFF_FFFF_FFFF
}
