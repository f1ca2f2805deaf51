/** Limits that several source files share. */
module Constants {
  const INT_MAX := 0x7FFF_FFFF
  const MAX_APPS: nat := 20
}
