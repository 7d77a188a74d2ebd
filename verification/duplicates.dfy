/**
 * The duplicate-content cache of `src/utils/security.py`: the time each
 * submitted text was last admitted, forgotten after five minutes. The md5
 * digest of the stripped text is keyed here by the stripped text itself.
 */
module Duplicates {
  import opened Strings

  const DuplicateWindow: real := 300.0

  const DuplicateMessage: string := "内容重复，请勿短时间内重复提交相同内容"

  /** Whether an entry stored at `ts` has expired at `now`. */
  predicate Expired(ts: real, now: real) {
    now - ts > DuplicateWindow
  }

  /** The cache after every expired entry is removed. */
  function Purge(seen: map<string, real>, now: real): (kept: map<string, real>)
    ensures forall k :: k in kept <==> k in seen && !Expired(seen[k], now)
    ensures forall k :: k in kept ==> kept[k] == seen[k]
  {
    map k | k in seen && !Expired(seen[k], now) :: seen[k]
  }

  /** The key a text is stored under. */
  function Key(content: string): string {
    Strip(content)
  }

  /** Whether `content` is admitted at `now`. */
  predicate Admits(seen: map<string, real>, content: string, now: real) {
    Key(content) !in Purge(seen, now)
  }

  /** A text stored more than five minutes ago is admitted again. */
  lemma ExpiredIsAdmitted(seen: map<string, real>, content: string, now: real)
    requires Key(content) in seen && Expired(seen[Key(content)], now)
    ensures Admits(seen, content, now)
  {
  }

  /** A text stored at most five minutes ago is refused, whatever surrounds it in whitespace. */
  lemma RecentIsRefused(seen: map<string, real>, content: string, other: string, now: real)
    requires Key(content) in seen && !Expired(seen[Key(content)], now)
    requires Strip(other) == Strip(content)
    ensures !Admits(seen, other, now)
  {
  }

  /** `_content_hashes`. */
  class ContentCache {
    var seen: map<string, real>

    constructor ()
      ensures seen == map[]
    {
      seen := map[];
    }

    /**
     * `check_duplicate_content`: purge the expired entries, then refuse a
     * stored text without refreshing its time, or store a new one at `now`.
     */
    method CheckDuplicate(content: string, now: real) returns (allowed: bool, message: string)
      modifies this
      ensures allowed <==> Admits(old(seen), content, now)
      ensures allowed ==> message == "" && seen == Purge(old(seen), now)[Key(content) := now]
      ensures !allowed ==> message == DuplicateMessage && seen == Purge(old(seen), now)
      ensures !allowed ==> seen[Key(content)] == old(seen)[Key(content)]
    {
      ghost var start := seen;
      var expired := set k | k in seen && Expired(seen[k], now);
      while expired != {}
        invariant expired <= set k | k in start && Expired(start[k], now)
        invariant seen == map k | k in start && (k in expired || !Expired(start[k], now)) :: start[k]
        decreases |expired|
      {
        var k :| k in expired;
        seen := seen - {k};
        expired := expired - {k};
      }
      assert seen == Purge(start, now);
      var key := Key(content);
      if key in seen {
        return false, DuplicateMessage;
      }
      seen := seen[key := now];
      return true, "";
    }
  }
}
