/** Results shared by the models. */
module Common {

  datatype Option<+T> = None | Some(value: T)

  // errno values; the code returns them negated
  const ENOENT: int := 2
  const EINVAL: int := 22
  const ENOSPC: int := 28
  const ENOSYS: int := 38
}
