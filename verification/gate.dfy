/**
 * `security_check` of `src/utils/security.py`: the blocklist, the region
 * block, and for writes the limiter, the honeypot and the duplicate cache,
 * run in that order; the first failure decides the status.
 */
module Gate {
  import opened Wrappers
  import opened Strings
  import opened Blocklist
  import opened Region
  import opened RateLimit
  import opened Duplicates
  import opened Honeypot

  /** The refusal text for a blocked region, `f"... ({country}) ..."`. */
  function RegionMessage(country: Option<string>): string {
    "此服务在您所在的地区 (" + (match country case Some(c) => c case None => "None") + ") 不可用"
  }

  /** A write that gets past the blocklist and the region block. */
  predicate Screened(entries: set<string>, geo: GeoIp, ip: string, action: string) {
    ip !in entries && !IsBlockedCountry(ip, geo).0 && action == "write"
  }

  method SecurityCheck(
    blocklist: BlocklistFile, geo: GeoIp, limiter: Limiter, cache: ContentCache,
    ip: string, action: string, content: Option<string>,
    honeypot: Option<string>, formTimestamp: Option<string>, now: real)
    returns (passed: bool, status: int, message: string)
    requires limiter.Valid()
    modifies limiter, cache
    ensures limiter.Valid()
    ensures passed <==> status == 200
    ensures passed ==> message == ""
    // 1. the blocklist
    ensures ip in Entries(blocklist.content) ==>
      status == 403 && message == "Access Denied"
    // 2. the region block
    ensures ip !in Entries(blocklist.content) && IsBlockedCountry(ip, geo).0 ==>
      status == 451 && message == RegionMessage(IsBlockedCountry(ip, geo).1)
    // Nothing is counted or stored unless both pass and the request is a write.
    ensures ip in Entries(blocklist.content) || IsBlockedCountry(ip, geo).0 || action != "write" ==>
      limiter.history == old(limiter.history) && limiter.bans == old(limiter.bans)
      && cache.seen == old(cache.seen)
    // A read that gets this far passes.
    ensures ip !in Entries(blocklist.content) && !IsBlockedCountry(ip, geo).0 && action != "write" ==>
      passed
    // 3. the limiter, for writes: a refusal carries the limiter's message and
    // leaves the cache alone; an admitted write is recorded whatever follows.
    ensures Screened(Entries(blocklist.content), geo, ip, action) ==>
      (status == 429 <==> !AdmitsWrite(old(limiter.history), old(limiter.bans), ip, now))
    ensures Screened(Entries(blocklist.content), geo, ip, action) && Banned(old(limiter.bans), ip, now) ==>
      status == 429 && message == BannedMessage(Truncate(old(limiter.bans)[ip] - now))
      && limiter.history == old(limiter.history) && limiter.bans == old(limiter.bans)
      && cache.seen == old(cache.seen)
    ensures Screened(Entries(blocklist.content), geo, ip, action) && !Banned(old(limiter.bans), ip, now)
            && !AdmitsWrite(old(limiter.history), old(limiter.bans), ip, now) ==>
      message == LimitedMessage
      && limiter.history == old(limiter.history)[ip := Pruned(old(limiter.history), ip, now)]
      && limiter.bans == old(limiter.bans)[ip := now + BanDuration]
      && cache.seen == old(cache.seen)
    ensures Screened(Entries(blocklist.content), geo, ip, action)
            && AdmitsWrite(old(limiter.history), old(limiter.bans), ip, now) ==>
      limiter.history == old(limiter.history)[ip := Pruned(old(limiter.history), ip, now) + [RateLimit.Event(now, action)]]
      && limiter.bans == old(limiter.bans) - {ip}
    // 4. the honeypot, once the write has been counted
    ensures Screened(Entries(blocklist.content), geo, ip, action)
            && AdmitsWrite(old(limiter.history), old(limiter.bans), ip, now)
            && !CheckHoneypot(honeypot, formTimestamp, now).0 ==>
      status == 400 && message == CheckHoneypot(honeypot, formTimestamp, now).1
      && cache.seen == old(cache.seen)
    // 5. the duplicate cache, only for a non-empty content: a passing content
    // is stored at `now`, a refused one only purges the expired entries.
    ensures Screened(Entries(blocklist.content), geo, ip, action)
            && AdmitsWrite(old(limiter.history), old(limiter.bans), ip, now)
            && CheckHoneypot(honeypot, formTimestamp, now).0 ==>
      (passed <==> !Truthy(content) || Admits(old(cache.seen), content.value, now))
      && (!passed ==> status == 400 && message == DuplicateMessage && cache.seen == Purge(old(cache.seen), now))
      && (!Truthy(content) ==> cache.seen == old(cache.seen))
      && (Truthy(content) && passed ==> cache.seen == Purge(old(cache.seen), now)[Key(content.value) := now])
  {
    var listed := blocklist.IsBlacklisted(ip);
    if listed {
      return false, 403, "Access Denied";
    }
    var region := IsBlockedCountry(ip, geo);
    if region.0 {
      return false, 451, RegionMessage(region.1);
    }
    if action == "write" {
      var allowed, error := limiter.CheckRateLimit(ip, action, now);
      if !allowed {
        return false, 429, error;
      }
      var trap := CheckHoneypot(honeypot, formTimestamp, now);
      if !trap.0 {
        return false, 400, trap.1;
      }
      if content.Some? && content.value != [] {
        allowed, error := cache.CheckDuplicate(content.value, now);
        if !allowed {
          return false, 400, error;
        }
      }
    }
    return true, 200, "";
  }
}
