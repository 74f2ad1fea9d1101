/** Numbers that several parts of the kernel module share. */
module Constants {
  const PAGE_SIZE: nat := 4096
}
