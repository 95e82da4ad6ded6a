/**
 * check_disk_flags: does the filesystem holding a path carry every mount flag
 * the caller asks for? Answers 1 or 0; a failed query answers 0, and the
 * SunOS build answers 1 without asking.
 */
module MountFlags {
  import opened FsQuery

  /** A single mount flag: a mask with exactly one bit set. */
  predicate IsFlag(b: bv32)
  {
    b != 0 && b & (b - 1) == 0
  }

  /** Every single flag contained in `requested` is also set in `observed`. */
  ghost predicate HasAllFlags(observed: bv32, requested: bv32)
  {
    forall b: bv32 :: IsFlag(b) && requested & b != 0 ==> observed & b != 0
  }

  /** The code's test (observed & requested) == requested: every requested flag is set. */
  predicate MaskTest(observed: bv32, requested: bv32): (granted: bool)
    ensures granted <==> HasAllFlags(observed, requested)
  {
    MaskTestIffAllFlags(observed, requested);
    observed & requested == requested
  }

  /**
   * check_disk_flags(path, flags), with `call` the statfs() result for `path`.
   */
  function CheckDiskFlags(platform: Platform, call: StatCall, flags: bv32): (r: int)
    ensures r == 0 || r == 1
    ensures platform == SunOS ==> r == 1
    ensures platform == StatFs && call.Failed() ==> r == 0
    ensures platform == StatFs && !call.Failed() ==> (r == 1 <==> HasAllFlags(call.buf.flags, flags))
  {
    match platform
    case SunOS => 1
    case StatFs =>
      if call.Failed() then
        0
      else
        if MaskTest(call.buf.flags, flags) then 1 else 0
  }

  /** The lowest set bit of a non-zero word is a single flag contained in it. */
  lemma LowestFlag(x: bv32)
    requires x != 0
    ensures IsFlag(x & -x) && x & (x & -x) != 0
  {
  }

  lemma FlagOfSubmask(observed: bv32, requested: bv32, b: bv32)
    requires observed & requested == requested
    ensures requested & b != 0 ==> observed & b != 0
  {
  }

  /** When the mask test fails, the lowest requested flag that is not observed is missing. */
  lemma MissingFlag(observed: bv32, requested: bv32) returns (b: bv32)
    requires observed & requested != requested
    ensures IsFlag(b) && requested & b != 0 && observed & b == 0
    ensures b == (requested & !observed) & -(requested & !observed)
  {
    var missing := requested & !observed;
    LowestFlag(missing);
    b := missing & -missing;
  }

  /** The code's mask test holds exactly when every requested flag is set. */
  lemma MaskTestIffAllFlags(observed: bv32, requested: bv32)
    ensures observed & requested == requested <==> HasAllFlags(observed, requested)
  {
    if observed & requested == requested {
      forall b: bv32 | IsFlag(b)
        ensures requested & b != 0 ==> observed & b != 0
      {
        FlagOfSubmask(observed, requested, b);
      }
    } else {
      var b := MissingFlag(observed, requested);
    }
  }

  /** Asking for no flag at all succeeds whenever the query succeeds. */
  lemma EmptyRequestAdmitted(platform: Platform, call: StatCall)
    requires !call.Failed()
    ensures CheckDiskFlags(platform, call, 0) == 1
  {
  }

  /** Dropping flags from a granted request keeps it granted. */
  lemma DownwardClosed(platform: Platform, call: StatCall, flags: bv32, fewer: bv32)
    requires fewer & flags == fewer
    requires CheckDiskFlags(platform, call, flags) == 1
    ensures CheckDiskFlags(platform, call, fewer) == 1
  {
  }

  /** Combining two granted requests gives a granted request. */
  lemma UnionGranted(platform: Platform, call: StatCall, flags: bv32, more: bv32)
    requires CheckDiskFlags(platform, call, flags) == 1
    requires CheckDiskFlags(platform, call, more) == 1
    ensures CheckDiskFlags(platform, call, flags | more) == 1
  {
  }

  /** A filesystem carrying more flags grants every request a smaller one grants. */
  lemma MonotoneInObservedFlags(call: StatCall, extra: bv32, flags: bv32)
    requires CheckDiskFlags(StatFs, call, flags) == 1
    ensures CheckDiskFlags(StatFs, call.(buf := call.buf.(flags := call.buf.flags | extra)), flags) == 1
  {
  }
}
