/** The file modes that Git records. */
module FileModes {

  const DIRECTORY_MODE: nat := 0x4000   // 0o040000
  const REGULAR_MODE: nat := 0x81a4     // 0o100644
  const EXECUTABLE_MODE: nat := 0x81ed  // 0o100755
  const SYMLINK_MODE: nat := 0xa000     // 0o120000
  const GITLINK_MODE: nat := 0xe000     // 0o160000
}
