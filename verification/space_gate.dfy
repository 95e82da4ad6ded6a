/**
 * check_disk_space_for_filesize: the disk-space admission gate. Given a
 * prospective file size and a threshold of bytes that must stay free, it
 * answers 1 (admit) or 0 (deny).
 */
module SpaceGate {
  import opened Words
  import opened FsQuery
  import DiskProbe

  /**
   * The decision the gate takes once `avail` holds the available byte count,
   * computed with the code's unsigned 64-bit operations. A positive size is a
   * write about to happen; a size of zero or less means "size unknown" and
   * only the current headroom is checked.
   */
  function SpaceDecision(fileSize: int64, threshold: uint64, avail: uint64): (admit: int)
    ensures admit == 0 || admit == 1
    ensures threshold == 0 ==> admit == 1
    ensures threshold > 0 && fileSize > 0 ==>
      (admit == 0 <==> fileSize > avail || avail - fileSize < threshold)
    ensures threshold > 0 && fileSize <= 0 ==>
      (admit == 0 <==> avail < threshold)
  {
    if threshold > 0 then
      if fileSize > 0 then
        // `||` stops after the first test, so the subtraction runs only when fileSize <= avail
        if ToUint64(fileSize) > avail || ToUint64(avail - ToUint64(fileSize)) < threshold then 0 else 1
      else if avail < threshold then 0 else 1
    else
      1
  }

  /**
   * check_disk_space_for_filesize(path, fileSize, threshold). `call` is what
   * the statistics call would return for `path`; `garbageAvail` and
   * `garbageTotal` stand for the uninitialised locals the probe writes into.
   * The probe's return value is ignored, so after a failed call the decision
   * is taken on whatever `garbageAvail` held.
   */
  function CheckDiskSpaceForFilesize(
    platform: Platform, call: StatCall, garbageAvail: uint64, garbageTotal: uint64,
    fileSize: int64, threshold: uint64): (admit: int)
    ensures admit == 0 || admit == 1
    // a zero threshold switches the check off
    ensures threshold == 0 ==> admit == 1
    // otherwise the answer is the decision on the bytes the probe reported ...
    ensures !call.Failed() ==>
      admit == SpaceDecision(fileSize, threshold, ToUint64(call.buf.bsize * DiskProbe.AvailBlocks(platform, call.buf)))
    // ... and after a failed probe, the decision on the value left in the local
    ensures call.Failed() ==> admit == SpaceDecision(fileSize, threshold, garbageAvail)
  {
    if threshold > 0 then
      var info := DiskProbe.HostDiskInfoGet(platform, call, garbageAvail, garbageTotal);
      SpaceDecision(fileSize, threshold, info.avail)
    else
      1
  }

  /**
   * With a zero threshold the filesystem plays no part: neither the call
   * result nor the leftover locals can change the answer.
   */
  lemma ZeroThresholdIgnoresProbe(
    platform: Platform, call: StatCall, garbageAvail: uint64, garbageTotal: uint64,
    call': StatCall, garbageAvail': uint64, garbageTotal': uint64, fileSize: int64)
    ensures CheckDiskSpaceForFilesize(platform, call, garbageAvail, garbageTotal, fileSize, 0)
         == CheckDiskSpaceForFilesize(platform, call', garbageAvail', garbageTotal', fileSize, 0)
  {
  }

  /**
   * The unsigned subtraction avail - fileSize is evaluated only once
   * fileSize <= avail is known, and there it does not wrap.
   */
  lemma SubtractionNeverWraps(fileSize: int64, avail: uint64)
    requires 0 < fileSize
    requires !(ToUint64(fileSize) > avail)
    ensures ToUint64(avail - ToUint64(fileSize)) == avail - fileSize
  {
  }

  /** For a known size the gate admits exactly when size plus threshold fit. */
  lemma KnownSizeAdmitsIffFits(fileSize: int64, threshold: uint64, avail: uint64)
    requires threshold > 0 && fileSize > 0
    ensures SpaceDecision(fileSize, threshold, avail) == 1 <==> fileSize + threshold <= avail
  {
  }

  /** More available space never turns an admission into a denial. */
  lemma AdmitMonotoneInAvail(fileSize: int64, threshold: uint64, avail: uint64, avail': uint64)
    requires avail <= avail'
    requires SpaceDecision(fileSize, threshold, avail) == 1
    ensures SpaceDecision(fileSize, threshold, avail') == 1
  {
  }

  /** A lower threshold never turns an admission into a denial. */
  lemma AdmitAntitoneInThreshold(fileSize: int64, threshold: uint64, threshold': uint64, avail: uint64)
    requires threshold' <= threshold
    requires SpaceDecision(fileSize, threshold, avail) == 1
    ensures SpaceDecision(fileSize, threshold', avail) == 1
  {
  }

  /** A larger known write never turns a denial into an admission. */
  lemma DenialMonotoneInSize(fileSize: int64, fileSize': int64, threshold: uint64, avail: uint64)
    requires 0 < fileSize <= fileSize'
    requires SpaceDecision(fileSize, threshold, avail) == 0
    ensures SpaceDecision(fileSize', threshold, avail) == 0
  {
  }

  /** Worked cases: a 900-byte write against 1000 free bytes and a 200-byte threshold, and two more. */
  lemma WorkedCases()
    ensures SpaceDecision(900, 200, 1000) == 0
    ensures SpaceDecision(-1, 200, 1000) == 1
    ensures SpaceDecision(10000, 0, 100) == 1
    ensures SpaceDecision(800, 200, 1000) == 1
  {
  }
}
