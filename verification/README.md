# Disk admission checks of cctools' dttools, in Dafny

This project models `dttools/src/host_disk_info.c`, the small layer that the
workflow engine asks before it runs or writes: how many bytes a filesystem has
(`host_disk_info_get`), whether a prospective file of a given size still leaves
a configured number of bytes free (`check_disk_space_for_filesize`), and whether
a filesystem carries a set of mount flags (`check_disk_flags`).

The operating system is reduced to values. A `statfs()`/`statvfs()` call is a
`StatCall`: the int it returned and the record it filled (block size, total
blocks, free blocks, caller-usable blocks, mount flags). The build-time choice
between the SunOS backend (`statvfs`, `f_bfree`) and every other system
(`statfs`, `f_bavail`) is a `Platform` parameter. C out-parameters become
values: the probe takes the caller's prior contents of `*avail` and `*total`
and returns their final contents, so "left unwritten on failure" is a
checkable statement. uint64 arithmetic is written out as reduction modulo 2^64
(`Words.ToUint64`). Mount-flag masks are `bv32`.

Modules: `Words` (C integer types), `FsQuery` (the abstract statistics call),
`DiskProbe` (`host_disk_info_get`), `SpaceGate` (`check_disk_space_for_filesize`),
`MountFlags` (`check_disk_flags`).

Three behaviours of the code are worth stating plainly, and the model keeps
each of them:
- The gate ignores the probe's return value
  (dttools/src/host_disk_info.c:64) and decides on whatever the uninitialised
  local `disk_avail` holds. `SpaceGate.CheckDiskSpaceForFilesize` takes that
  value as an arbitrary input; a failed probe does not deny.
- The SunOS backend reads `f_bfree` (:42), which counts blocks reserved for
  the superuser; the statfs backend reads `f_bavail` (:54), the blocks an
  unprivileged caller may use. `DiskProbe.SunOSCountsReservedBlocks` states
  the consequence for records whose SunOS product does not wrap, and
  `DiskProbe.WrapMakesSunOSReportLess` gives a record where it does.
- The products at :41-42 and :53-54 wrap modulo 2^64, so avail <= total is
  not guaranteed. `DiskProbe.AvailWithinTotal` proves a sufficient condition
  for it, and `DiskProbe.WrapBreaksAvailWithinTotal` gives an input where it
  fails.

## Model

| member | source | states |
|---|---|---|
| Words.ToUint64 | dttools/src/host_disk_info.c:53-54 | converting to uint64_t keeps in-range values, maps a negative value of at least -2^64 (every int64) up by 2^64, and always changes the value by a multiple of 2^64 |
| DiskProbe.HostDiskInfoGet | dttools/src/host_disk_info.c:31-58 | the result is negative exactly when the statistics call failed; on failure the call's code is returned and neither out-parameter changes; on success it returns 0, and total and avail are block size times total blocks, and times the backend's usable blocks, each modulo 2^64 and exact when no wrap occurs |
| DiskProbe.AvailWithinTotal | dttools/src/host_disk_info.c:37-56 | on either backend, a record with no more available blocks than blocks and a capacity below 2^64 gives avail <= total |
| DiskProbe.WrapBreaksAvailWithinTotal | dttools/src/host_disk_info.c:53-54 | a consistent record (1 usable block of 2^32 blocks of 2^32 bytes) yields total 0 and avail 2^32 |
| DiskProbe.SunOSCountsReservedBlocks | dttools/src/host_disk_info.c:41-54 | for a record with bavail <= bfree whose SunOS product bsize * bfree stays below 2^64, the SunOS backend never reports less available space than statfs, and reports strictly more when bsize > 0 and superuser-reserved blocks exist |
| DiskProbe.WrapMakesSunOSReportLess | dttools/src/host_disk_info.c:41-54 | without that no-wrap condition SunOS can report less: 2^32 free blocks of 2^32 bytes (one usable by everyone) give SunOS avail 0 and statfs avail 2^32 |
| SpaceGate.SpaceDecision | dttools/src/host_disk_info.c:63-78 | the answer is 0 or 1; threshold 0 admits; with a positive size it denies iff size > avail or avail - size < threshold; with a size <= 0 it denies iff avail < threshold (all over mathematical integers) |
| SpaceGate.CheckDiskSpaceForFilesize | dttools/src/host_disk_info.c:60-79 | the answer is 0 or 1; threshold 0 admits; otherwise the answer is the decision on the probed avail, or, after a failed probe, on the uninitialised value |
| SpaceGate.ZeroThresholdIgnoresProbe | dttools/src/host_disk_info.c:63-78 | with threshold 0 the answer is the same for every call result and every leftover local value |
| SpaceGate.SubtractionNeverWraps | dttools/src/host_disk_info.c:66 | once size <= avail is established, the unsigned avail - size equals the mathematical difference |
| SpaceGate.KnownSizeAdmitsIffFits | dttools/src/host_disk_info.c:65-69 | with a positive threshold and size, admission holds iff size + threshold <= avail |
| SpaceGate.AdmitMonotoneInAvail | dttools/src/host_disk_info.c:63-75 | admitting at some avail implies admitting at every larger avail |
| SpaceGate.AdmitAntitoneInThreshold | dttools/src/host_disk_info.c:63-75 | admitting at some threshold implies admitting at every lower threshold |
| SpaceGate.DenialMonotoneInSize | dttools/src/host_disk_info.c:65-69 | denying a known size implies denying every larger size |
| SpaceGate.WorkedCases | dttools/src/host_disk_info.c:63-78 | a 900-byte write with 1000 free and threshold 200 is denied; an unknown size with 1000 free and threshold 200 is admitted; threshold 0 admits a 10000-byte write with 100 free; an 800-byte write leaving exactly 200 is admitted |
| MountFlags.MaskTest | dttools/src/host_disk_info.c:95 | (observed & requested) == requested holds iff every single flag in the request is set in the observed flags |
| MountFlags.MaskTestIffAllFlags | dttools/src/host_disk_info.c:95 | the mask test and "every requested single-bit flag is observed" are equivalent in both directions |
| MountFlags.MissingFlag | dttools/src/host_disk_info.c:95 | when the mask test fails, the lowest requested flag that is not observed is returned: it is a single bit, requested and not observed |
| MountFlags.CheckDiskFlags | dttools/src/host_disk_info.c:81-97 | the answer is 0 or 1; SunOS always answers 1; a failed statfs answers 0; otherwise 1 iff every requested flag is set |
| MountFlags.EmptyRequestAdmitted | dttools/src/host_disk_info.c:89-95 | an empty request is granted whenever the query succeeds |
| MountFlags.DownwardClosed | dttools/src/host_disk_info.c:95 | a granted request stays granted for every sub-mask of it |
| MountFlags.UnionGranted | dttools/src/host_disk_info.c:95 | the union of two granted requests is granted |
| MountFlags.MonotoneInObservedFlags | dttools/src/host_disk_info.c:95 | setting more flags on the filesystem keeps every granted request granted |

## Left out

- The `statfs`/`statvfs` system calls themselves, the header selection and the `#ifdef` build switch (dttools/src/host_disk_info.c:19-33,82): the calls are inputs (`FsQuery.StatCall`), and the switch is the `Platform` parameter.
- The `path` argument: it only selects which call result is passed in.
- The debug messages with MEGA-scaled sizes (dttools/src/host_disk_info.c:67,72): a logging sink only.
- C undefined behaviour of reading the uninitialised `disk_avail` after a failed probe (dttools/src/host_disk_info.c:61-64): it is modelled as an arbitrary uint64 input.
- The record fields are the uint64 values they become in the products; a signed `f_bsize` enters as its value after the `(UINT64_T)` cast at :41 and :53.
- `FsQuery.FsStats.flags` is the low 32 bits of `f_flags`: `flags` is an `unsigned int`, so higher bits of a 64-bit `f_flags` cannot change `(f_flags & flags) == flags`. The widening is not modelled.
- makeflow/src/dag_task_category.h: it declares a struct with a label and a node list and the prototype of `dag_task_category_create`, but no body, so there is no behaviour to model. The category registry (get-or-create, append) is not part of this model.
