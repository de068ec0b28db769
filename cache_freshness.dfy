/**
 * Whether a derived cache file is newer than the file it was made from,
 * on POSIX (`stat` modification times) and on Windows (`FindFirstFile`
 * write times, a 64-bit count split into two 32-bit halves); and closing a
 * memory-mapped file.  The file-system queries are given as their answers.
 */
module CacheFreshness {
  import opened Wrappers

  /** `ENOENT`, and Windows' `ERROR_FILE_NOT_FOUND`. */
  const ENOENT: int := 2
  const ERROR_FILE_NOT_FOUND: int := 2

  /** The answer of `stat`: the modification time, or the `errno` it failed with. */
  datatype StatResult = Stat(mtime: int) | StatFailed(errno: int)

  /**
   * An error thrown by `ThrowErrno`: the text it was given and the error
   * code (the message appends the code's description, which is not
   * modelled).
   */
  datatype SysError = SysError(context: string, code: int)

  /**
   * `CacheIsFresh` (POSIX): a missing cache is stale; a cache whose source
   * is missing is fresh, so the source may be deleted; otherwise the cache
   * is fresh exactly when modified strictly later.  Any other `stat`
   * failure throws, naming the path.
   */
  function CacheIsFresh(file: string, cache: string, fileStat: StatResult, cacheStat: StatResult): (r: Result<bool, SysError>)
    ensures cacheStat.StatFailed? ==> r == (if cacheStat.errno == ENOENT then Ok(false) else Err(SysError(cache, cacheStat.errno)))
    ensures cacheStat.Stat? && fileStat.StatFailed? ==>
      r == (if fileStat.errno == ENOENT then Ok(true) else Err(SysError(file, fileStat.errno)))
    ensures cacheStat.Stat? && fileStat.Stat? ==> r == Ok(cacheStat.mtime > fileStat.mtime)
  {
    match cacheStat
    case StatFailed(e) => if e == ENOENT then Ok(false) else Err(SysError(cache, e))
    case Stat(cacheTime) =>
      match fileStat
      case StatFailed(e) => if e == ENOENT then Ok(true) else Err(SysError(file, e))
      case Stat(fileTime) => Ok(cacheTime > fileTime)
  }

  /** A fresh cache stays fresh when the source is deleted, and a present cache is never fresh against a newer source. */
  lemma FreshnessMonotone(file: string, cache: string, cacheTime: int, fileTime: int)
    ensures CacheIsFresh(file, cache, StatFailed(ENOENT), Stat(cacheTime)) == Ok(true)
    ensures fileTime >= cacheTime ==> CacheIsFresh(file, cache, Stat(fileTime), Stat(cacheTime)) == Ok(false)
    ensures CacheIsFresh(file, cache, Stat(fileTime), Stat(cacheTime)) == Ok(true) <==> cacheTime > fileTime
  {
  }

  const Two32: int := 0x1_0000_0000

  /** `FILETIME`: the high and low 32-bit halves of a 64-bit count of 100-nanosecond ticks. */
  datatype FileTime = FileTime(high: int, low: int)

  predicate ValidFileTime(t: FileTime) {
    0 <= t.high < Two32 && 0 <= t.low < Two32
  }

  /** The 64-bit count the two halves make up. */
  function Ticks(t: FileTime): int {
    t.high * Two32 + t.low
  }

  /** `std::tie(high, low) > std::tie(high, low)`: lexicographic on the halves. */
  predicate TieGreater(a: FileTime, b: FileTime) {
    a.high > b.high || (a.high == b.high && a.low > b.low)
  }

  /** Comparing the halves lexicographically is comparing the 64-bit counts. */
  lemma TieGreaterIsTicksGreater(a: FileTime, b: FileTime)
    requires ValidFileTime(a) && ValidFileTime(b)
    ensures TieGreater(a, b) <==> Ticks(a) > Ticks(b)
  {
    if a.high > b.high {
      assert Ticks(a) >= (b.high + 1) * Two32;
    } else if a.high < b.high {
      assert Ticks(b) >= (a.high + 1) * Two32;
    }
  }

  /** The answer of `FindFirstFile`: the last write time, or the `GetLastError` code. */
  datatype FindResult = Found(lastWrite: FileTime) | FindFailed(lastError: int)

  /**
   * `CacheIsFresh` (Windows): the same rule, with `FindFirstFile` and its
   * error codes, comparing the write times half by half.
   */
  function CacheIsFreshWin(file: string, cache: string, fileFind: FindResult, cacheFind: FindResult): (r: Result<bool, SysError>)
    ensures cacheFind.FindFailed? ==>
      r == (if cacheFind.lastError == ERROR_FILE_NOT_FOUND then Ok(false) else Err(SysError("FindFirstFile", cacheFind.lastError)))
    ensures cacheFind.Found? && fileFind.FindFailed? ==>
      r == (if fileFind.lastError == ERROR_FILE_NOT_FOUND then Ok(true) else Err(SysError("FindFirstFile", fileFind.lastError)))
    ensures cacheFind.Found? && fileFind.Found? ==> r == Ok(TieGreater(cacheFind.lastWrite, fileFind.lastWrite))
  {
    match cacheFind
    case FindFailed(e) => if e == ERROR_FILE_NOT_FOUND then Ok(false) else Err(SysError("FindFirstFile", e))
    case Found(cacheTime) =>
      match fileFind
      case FindFailed(e) => if e == ERROR_FILE_NOT_FOUND then Ok(true) else Err(SysError("FindFirstFile", e))
      case Found(fileTime) => Ok(TieGreater(cacheTime, fileTime))
  }

  /** The POSIX `stat` answer that carries the same information as a `FindFirstFile` answer. */
  function AsStat(f: FindResult): StatResult {
    match f
    case Found(t) => Stat(Ticks(t))
    case FindFailed(e) => StatFailed(e)
  }

  /** Both ports decide freshness alike: the same verdict whenever neither throws. */
  lemma PortsAgree(file: string, cache: string, fileFind: FindResult, cacheFind: FindResult)
    requires fileFind.Found? ==> ValidFileTime(fileFind.lastWrite)
    requires cacheFind.Found? ==> ValidFileTime(cacheFind.lastWrite)
    ensures CacheIsFreshWin(file, cache, fileFind, cacheFind).Ok? <==> CacheIsFresh(file, cache, AsStat(fileFind), AsStat(cacheFind)).Ok?
    ensures CacheIsFreshWin(file, cache, fileFind, cacheFind).Ok? ==>
      CacheIsFreshWin(file, cache, fileFind, cacheFind) == CacheIsFresh(file, cache, AsStat(fileFind), AsStat(cacheFind))
  {
    if cacheFind.Found? && fileFind.Found? {
      TieGreaterIsTicksGreater(cacheFind.lastWrite, fileFind.lastWrite);
    }
  }

  /** `MappedFile` (POSIX): whether a mapping is held, its length, and whether errors throw. */
  class MappedFile {
    var mapped: bool
    var length: nat
    var dothrow: bool

    /** `MappedFile()`: nothing mapped; errors throw. */
    constructor ()
      ensures !mapped && length == 0 && dothrow
    {
      mapped := false;
      length := 0;
      dothrow := true;
    }

    /**
     * `Close`: on a file that holds no mapping, nothing happens.  Otherwise
     * the mapping is dropped and unmapped; a failing `munmap` throws only
     * when the file was set to throw.
     */
    method Close(munmapFails: bool, errno: int) returns (r: Result<(), SysError>)
      modifies this
      ensures !old(mapped) ==> r == Ok(()) && !mapped
      ensures old(mapped) ==> !mapped && (r.Err? <==> munmapFails && dothrow)
      ensures r.Err? ==> r.error == SysError("munmap", errno)
      ensures length == old(length) && dothrow == old(dothrow)
    {
      if !mapped {
        return Ok(());
      }
      mapped := false;
      if munmapFails && dothrow {
        return Err(SysError("munmap", errno));
      }
      r := Ok(());
    }
  }
}
