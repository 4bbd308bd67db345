/**
 * The on-disk email cache: one JSON file holding a timestamp and a list of
 * emails, trusted for an hour. The file is a single optional slot and the
 * clock is an explicit argument.
 */
module Cache {
  import opened Wrappers
  import opened Mail

  /** Seconds since the Unix epoch, as a `u64`. */
  type u64 = x: int | 0 <= x < 0x1_0000_0000_0000_0000

  /** `CACHE_MAX_AGE_SECS`. */
  const MaxAgeSecs: u64 := 3600

  /** What the cache file holds: parsable cache data, or content that cannot be read or parsed. */
  datatype CacheFile = Parsed(timestamp: u64, emails: seq<Email>) | Unreadable

  /** `u64::saturating_sub`. */
  function SaturatingSub(a: u64, b: u64): (r: u64)
    ensures b <= a ==> r + b == a
    ensures a < b ==> r == 0
  {
    if b <= a then a - b else 0
  }

  /** The freshness rule: the age `now - timestamp`, floored at 0, is at most an hour. */
  predicate Fresh(now: u64, timestamp: u64) {
    SaturatingSub(now, timestamp) <= MaxAgeSecs
  }

  /** Fresh exactly when `now` is at most an hour past the timestamp; a timestamp in the future is fresh. */
  lemma FreshIff(now: u64, timestamp: u64)
    ensures Fresh(now, timestamp) <==> now <= timestamp + MaxAgeSecs
    ensures timestamp >= now ==> Fresh(now, timestamp)
  {
  }

  /** Exactly one hour old is still fresh; one second more is stale. */
  lemma FreshBoundary(timestamp: u64)
    requires timestamp + MaxAgeSecs + 1 < 0x1_0000_0000_0000_0000
    ensures Fresh(timestamp + MaxAgeSecs, timestamp)
    ensures !Fresh(timestamp + MaxAgeSecs + 1, timestamp)
  {
  }

  /** The cache file slot. */
  class FileCache {
    var file: Option<CacheFile>

    constructor(existing: Option<CacheFile>)
      ensures file == existing
    {
      file := existing;
    }

    /**
     * `load_from_cache`: nothing when there is no file or it cannot be read
     * or parsed; otherwise the cached list exactly when it is fresh at `now`.
     */
    function Load(now: u64): (r: Option<seq<Email>>)
      reads this
      ensures r.Some? <==> file.Some? && file.value.Parsed? && now <= file.value.timestamp + MaxAgeSecs
      ensures r.Some? ==> r.value == file.value.emails
    {
      match file
      case None => None
      case Some(Unreadable) => None
      case Some(Parsed(timestamp, emails)) =>
        FreshIff(now, timestamp);
        if Fresh(now, timestamp) then Some(emails) else None
    }

    /** `save_to_cache`: the file now holds the current time and the list, so loading at once returns the list. */
    method Save(emails: seq<Email>, now: u64) returns (r: Result<Unit, string>)
      modifies this
      ensures file == Some(Parsed(now, emails))
      ensures Load(now) == Some(emails)
      ensures r == Ok(Unit)
    {
      file := Some(Parsed(now, emails));
      r := Ok(Unit);
    }

    /** `clear_cache`: removes the file if there is one; nothing can be loaded afterwards. */
    method Clear() returns (r: Result<Unit, string>)
      modifies this
      ensures file == None
      ensures forall now: u64 :: Load(now) == None
      ensures r == Ok(Unit)
    {
      if file.Some? {
        file := None;
      }
      r := Ok(Unit);
    }
  }
}
