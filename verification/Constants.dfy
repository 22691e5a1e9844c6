/** Numbers that several parts share: include/redmacs.h and
    core/include/rednodes.h. */
module Constants {
  const INODE_INVALID: nat := 0
  const INODE_FIRST_VALID: nat := 2
  const INODE_ROOTDIR: nat := INODE_FIRST_VALID
  const NODEHEADER_SIZE: nat := 16
}
