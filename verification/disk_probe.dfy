/**
 * host_disk_info_get: the capacity probe. It reports the total and the
 * available bytes of the filesystem holding a path, through two out-parameters,
 * and returns the statistics call's result when that call fails.
 */
module DiskProbe {
  import opened Words
  import opened FsQuery

  /**
   * What the caller sees after the probe: the returned int and the final
   * contents of the two out-parameters.
   */
  datatype DiskInfo = DiskInfo(ret: int32, avail: uint64, total: uint64)

  /** The block count each backend reports as available. */
  function AvailBlocks(platform: Platform, s: FsStats): (n: uint64)
  {
    match platform
    case SunOS => s.bfree
    case StatFs => s.bavail
  }

  /**
   * host_disk_info_get(path, &avail, &total). `call` is what the backend's
   * statistics call returned for `path`; `avail` and `total` are the values
   * the caller's variables held before the call.
   */
  function HostDiskInfoGet(platform: Platform, call: StatCall, avail: uint64, total: uint64): (out: DiskInfo)
    // failure is reported, never hidden: the result is negative exactly when the call failed
    ensures out.ret < 0 <==> call.Failed()
    ensures out.ret == 0 || out.ret < 0
    // on failure the call's own code comes back and neither out-parameter is written
    ensures call.Failed() ==> out.ret == call.ret && out.avail == avail && out.total == total
    // on success each byte count is block size times block count, reduced modulo 2^64
    ensures !call.Failed() ==>
      && (out.total - call.buf.bsize * call.buf.blocks) % UINT64_MODULUS == 0
      && (call.buf.bsize * call.buf.blocks < UINT64_MODULUS ==> out.total == call.buf.bsize * call.buf.blocks)
    ensures !call.Failed() ==>
      var usable := AvailBlocks(platform, call.buf);
      && (out.avail - call.buf.bsize * usable) % UINT64_MODULUS == 0
      && (call.buf.bsize * usable < UINT64_MODULUS ==> out.avail == call.buf.bsize * usable)
  {
    if call.Failed() then
      DiskInfo(call.ret, avail, total)
    else
      var s := call.buf;
      DiskInfo(0, ToUint64(s.bsize * AvailBlocks(platform, s)), ToUint64(s.bsize * s.blocks))
  }

  /**
   * A sufficient condition for the reported space not to exceed the reported
   * capacity, on either backend: the capacity did not wrap and the record
   * counts no more available blocks than blocks.
   */
  lemma AvailWithinTotal(platform: Platform, call: StatCall, avail: uint64, total: uint64)
    requires !call.Failed()
    requires AvailBlocks(platform, call.buf) <= call.buf.blocks
    requires call.buf.bsize * call.buf.blocks < UINT64_MODULUS
    ensures var out := HostDiskInfoGet(platform, call, avail, total);
      out.avail <= out.total
  {
    var s := call.buf;
    MulMonotone(s.bsize, AvailBlocks(platform, s), s.blocks);
  }

  lemma MulMonotone(a: nat, b: nat, c: nat)
    requires b <= c
    ensures a * b <= a * c
  {
  }

  /**
   * The probe itself does not keep avail <= total: with 2^32-byte blocks and
   * 2^32 blocks the capacity wraps to 0 while one usable block still reports
   * 2^32 bytes.
   */
  lemma WrapBreaksAvailWithinTotal()
    ensures var call := StatCall(0, FsStats(0x1_0000_0000, 0x1_0000_0000, 1, 1, 0));
      var out := HostDiskInfoGet(StatFs, call, 0, 0);
      out.ret == 0 && call.buf.bavail <= call.buf.blocks && out.total == 0 && out.avail == 0x1_0000_0000
  {
  }

  /**
   * The SunOS backend counts the blocks reserved for the superuser as
   * available: for a record with bavail <= bfree whose SunOS product does not
   * wrap, it never reports less than the statfs backend, and strictly more
   * when the block size is positive and such reserved blocks exist.
   */
  lemma SunOSCountsReservedBlocks(call: StatCall, avail: uint64, total: uint64)
    requires !call.Failed()
    requires call.buf.bavail <= call.buf.bfree
    requires call.buf.bsize * call.buf.bfree < UINT64_MODULUS
    ensures var sun := HostDiskInfoGet(SunOS, call, avail, total);
      var other := HostDiskInfoGet(StatFs, call, avail, total);
      && other.avail <= sun.avail
      && (call.buf.bsize > 0 && call.buf.bavail < call.buf.bfree ==> other.avail < sun.avail)
  {
    var s := call.buf;
    MulMonotone(s.bsize, s.bavail, s.bfree);
    if s.bsize > 0 && s.bavail < s.bfree {
      MulStrict(s.bsize, s.bavail, s.bfree);
    }
  }

  /**
   * Without the no-wrap condition SunOS can report less: with 2^32 free
   * blocks of 2^32 bytes its product wraps to 0, while one block usable by
   * everyone still reports 2^32 bytes on the statfs backend.
   */
  lemma WrapMakesSunOSReportLess()
    ensures var call := StatCall(0, FsStats(0x1_0000_0000, 0x1_0000_0000, 0x1_0000_0000, 1, 0));
      var sun := HostDiskInfoGet(SunOS, call, 0, 0);
      var other := HostDiskInfoGet(StatFs, call, 0, 0);
      && call.buf.bavail < call.buf.bfree
      && sun.avail == 0 && other.avail == 0x1_0000_0000
  {
  }

  lemma MulStrict(a: nat, b: nat, c: nat)
    requires a > 0 && b < c
    ensures a * b < a * c
  {
  }
}
