/**
 Disk-quota accounting through `quotaFile` (server/filesystem/quota_file.go) and
 `reserveDisk`/`adjustDisk` (server/filesystem/disk_space.go).

 This is the code as one goroutine runs it; `QuotaRuns` interleaves any number of
 handles and deletions.
 */
module QuotaFile {
  import opened Int64
  import opened QuotaCounter

  /** Where a write of `size` bytes at `off` ends, unless that overflows int64. */
  function WriteEnd(off: int64, size: int64): (r: (int64, bool))
    requires off >= 0
    ensures r.1 <==> size >= 0 && off + size <= MAX
    ensures r.1 ==> r.0 == off + size
  {
    if size < 0 || off > MAX - size then (0, false) else (off + size, true)
  }

  function Max(a: int, b: int): int {
    if a >= b then a else b
  }

  class Filesystem {
    const quota: Quota

    constructor (quota: Quota)
      ensures this.quota == quota
    {
      this.quota := quota;
    }

    method ReserveDisk(size: int64) returns (ok: bool)
      modifies quota`usage
      ensures ok <==> size <= 0 || CanFit(quota.limit, old(quota.usage), size)
      ensures quota.usage == if ok && size > 0 then NextUsage(old(quota.usage), size) else old(quota.usage)
    {
      if size <= 0 {
        return true;
      }
      ok := quota.Fits(size);
      if ok {
        var _ := quota.Add(size, []);
      }
    }

    method AdjustDisk(size: int64) returns (usage: int64)
      modifies quota`usage
      ensures usage == quota.usage == NextUsage(old(quota.usage), size)
    {
      if size == 0 {
        return quota.usage;
      }
      usage := quota.Add(size, []);
    }
  }

  class File {
    const fs: Filesystem
    var size: int64
    var disk: int64   // the size of the file on disk, as Stat reports it

    constructor (fs: Filesystem, size: int64, disk: int64)
      ensures this.fs == fs && this.size == size && this.disk == disk
    {
      this.fs, this.size, this.disk := fs, size, disk;
    }

    /**
     A write of `len` bytes at `off` of which the OS accepts `accepted`. When the
     file's bytes are counted and the counter does not saturate, usage moves by
     exactly as much as the tracked size does, however short the write was; a
     refused write changes nothing.
     */
    method WriteAtLocked(off: int64, len: int64, accepted: int64) returns (n: int64, ok: bool)
      requires off >= 0 && 0 <= accepted <= len && size >= 0
      modifies this, fs.quota`usage
      ensures ok <==> off + len <= MAX
                      && (off + len > old(size) ==> CanFit(fs.quota.limit, old(fs.quota.usage), off + len - old(size)))
      ensures !ok ==> n == 0 && size == old(size) && disk == old(disk) && fs.quota.usage == old(fs.quota.usage)
      ensures ok ==> n == accepted
                     && size == (if n == 0 then old(size) else Max(old(size), off + n))
                     && disk == (if n == 0 then old(disk) else Max(old(disk), off + n))
      ensures ok ==> var reserved := Max(0, off + len - old(size));
                     fs.quota.usage == NextUsage(NextUsage(old(fs.quota.usage), reserved), size - old(size) - reserved)
      ensures ok && 0 <= old(size) <= old(fs.quota.usage) && old(fs.quota.usage) + Max(0, off + len - old(size)) <= MAX
              ==> fs.quota.usage - size == old(fs.quota.usage) - old(size)
    {
      n := 0;
      var previous := size;
      var (end, fits) := WriteEnd(off, len);
      if !fits {
        return 0, false;
      }
      if end - previous > 0 {
        ok := fs.ReserveDisk(end - previous);
        if !ok {
          return 0, false;
        }
      }
      n, ok := accepted, true;
      var writtenEnd := previous;
      if n > 0 {
        disk := Max(disk, off + n);
        writtenEnd := WriteEnd(off, n).0;
        if writtenEnd > previous {
          size := writtenEnd;
        }
      }
      var reserved := end - previous;
      if reserved > 0 {
        var actual := if writtenEnd > previous then writtenEnd - previous else 0;
        if actual < reserved {
          var _ := fs.AdjustDisk(actual - reserved);
        }
      }
    }

    /** Close replaces the tracked size by the size on disk in the counter, unless Stat fails. */
    method Close(statOk: bool)
      requires disk >= 0 && size >= 0
      modifies fs.quota`usage
      ensures !statOk ==> fs.quota.usage == old(fs.quota.usage)
      ensures statOk ==> fs.quota.usage == NextUsage(old(fs.quota.usage), disk - size)
      ensures statOk && size <= old(fs.quota.usage) && old(fs.quota.usage) - size + disk <= MAX
              ==> fs.quota.usage == old(fs.quota.usage) - size + disk
    {
      if statOk {
        var _ := fs.AdjustDisk(disk - size);
      }
    }
  }
}
