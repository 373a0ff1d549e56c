/** The negative error codes that are returned. */
module ErrorCodes {
  const ENOENT := -2
  const ENOMEM := -12
  const EBUSY := -16
  const EEXIST := -17
  const EINVAL := -22
  const EHOSTDOWN := -112
}
