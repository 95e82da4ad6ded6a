/**
 * The operating-system interface host_disk_info.c reads, reduced to values.
 *
 * The build selects one of two backends (the CCTOOLS_OPSYS_SUNOS switch): SunOS
 * uses statvfs(), every other system uses statfs(). Either call fills a
 * statistics record and returns an int; the code only asks whether that int
 * is negative. A call is therefore modelled by the integer it returned and the
 * record it left behind; nothing is read from the record after a failure.
 */
module FsQuery {
  import opened Words

  datatype Platform = SunOS | StatFs

  /**
   * The fields of struct statfs / struct statvfs that the code reads, as
   * the unsigned 64-bit values they become in its arithmetic.
   * `flags` is the low 32 bits of f_flags: the mask test compares it with an
   * unsigned int, so no higher bit can influence the outcome.
   */
  datatype FsStats = FsStats(
    bsize: uint64,   // f_bsize: bytes per block
    blocks: uint64,  // f_blocks: total blocks
    bfree: uint64,   // f_bfree: free blocks, including those reserved for the superuser
    bavail: uint64,  // f_bavail: free blocks an unprivileged caller may use
    flags: bv32      // f_flags: mount flags
  )

  /** One statfs()/statvfs() call: its return value and the record it filled. */
  datatype StatCall = StatCall(ret: int32, buf: FsStats) {
    predicate Failed() {
      ret < 0
    }
  }
}
