/**
 * The write limiter of `src/utils/security.py`: per-address history of recent
 * writes inside a sliding window, and a temporary ban once the window is full.
 * The clock is the parameter `now`, in seconds.
 */
module RateLimit {
  import opened Strings

  const Window: real := 60.0
  const MaxRequests: nat := 10
  const BanDuration: real := 300.0

  /** One recorded request: its time and its action. */
  datatype Event = Event(ts: real, action: string)

  /** The events still inside the window at `now`, in their original order. */
  function Recent(events: seq<Event>, now: real): (r: seq<Event>)
    ensures |r| <= |events|
    ensures forall i :: 0 <= i < |r| ==> now - r[i].ts < Window
  {
    if events == [] then []
    else
      var rest := Recent(events[1..], now);
      if now - events[0].ts < Window then [events[0]] + rest else rest
  }

  /** Pruning keeps exactly the recorded events that are inside the window. */
  lemma {:induction false} RecentMembers(events: seq<Event>, now: real)
    ensures forall i :: 0 <= i < |Recent(events, now)| ==> Recent(events, now)[i] in events
    ensures forall e :: e in events && now - e.ts < Window ==> e in Recent(events, now)
  {
    if events != [] {
      RecentMembers(events[1..], now);
      assert forall e :: e in events[1..] ==> e in events;
      assert forall e :: e in events ==> e == events[0] || e in events[1..];
    }
  }

  /** How many events are writes. */
  function WriteCount(events: seq<Event>): (n: nat)
    ensures n <= |events|
    ensures n == |events| <==> forall i :: 0 <= i < |events| ==> events[i].action == "write"
  {
    if events == [] then 0
    else
      var n := WriteCount(events[1..]);
      assert forall i :: 1 <= i < |events| ==> events[i] == events[1..][i - 1];
      (if events[0].action == "write" then 1 else 0) + n
  }

  predicate AllWrites(events: seq<Event>) {
    forall i :: 0 <= i < |events| ==> events[i].action == "write"
  }

  /** Pruning keeps only recorded events, so a history of writes stays one. */
  lemma {:induction false} RecentOfWrites(events: seq<Event>, now: real)
    requires AllWrites(events)
    ensures AllWrites(Recent(events, now))
  {
    if events != [] {
      RecentOfWrites(events[1..], now);
    }
  }

  /** `int(x)` for a non-negative real: the integer part. */
  function Truncate(x: real): (n: nat)
    requires x >= 0.0
    ensures n as real <= x < n as real + 1.0
  {
    x.Floor
  }

  function BannedMessage(remaining: nat): string {
    "请求过于频繁，请 " + NatToString(remaining) + " 秒后再试"
  }

  const LimitedMessage: string := "请求过于频繁，已被临时限制 300 秒"

  /** Whether `ip` is inside a ban at `now`. */
  predicate Banned(bans: map<string, real>, ip: string, now: real) {
    ip in bans && now < bans[ip]
  }

  /** The history of `ip` pruned to the window at `now`. */
  function Pruned(history: map<string, seq<Event>>, ip: string, now: real): seq<Event> {
    Recent(if ip in history then history[ip] else [], now)
  }

  /** Whether a write from `ip` at `now` is admitted, given the history and bans before it. */
  predicate AdmitsWrite(history: map<string, seq<Event>>, bans: map<string, real>, ip: string, now: real) {
    !Banned(bans, ip, now)
    && WriteCount(Pruned(history, ip, now)) < MaxRequests
  }

  /** `_request_history` and `_temp_bans`. */
  class Limiter {
    var history: map<string, seq<Event>>
    var bans: map<string, real>

    /** Only writes are ever recorded. */
    ghost predicate Valid()
      reads this
    {
      forall ip :: ip in history ==> AllWrites(history[ip])
    }

    /** The recorded events of `ip`, empty when there are none (a `defaultdict(list)`). */
    function History(ip: string): seq<Event>
      reads this
    {
      if ip in history then history[ip] else []
    }

    constructor ()
      ensures history == map[] && bans == map[]
      ensures Valid()
    {
      history := map[];
      bans := map[];
    }

    /**
     * `check_rate_limit`. A read passes untouched; a write during a ban is
     * denied and changes nothing; otherwise an expired ban is lifted, the
     * history is pruned to the window, and the write is either recorded or,
     * when the window already holds `MaxRequests` writes, refused with a new ban.
     */
    method CheckRateLimit(ip: string, action: string, now: real) returns (allowed: bool, message: string)
      requires Valid()
      modifies this
      ensures Valid()
      ensures allowed <==> action != "write" || AdmitsWrite(old(history), old(bans), ip, now)
      ensures action != "write" || Banned(old(bans), ip, now) ==> history == old(history) && bans == old(bans)
      ensures action != "write" ==> message == ""
      ensures action == "write" && Banned(old(bans), ip, now) ==>
        message == BannedMessage(Truncate(old(bans)[ip] - now))
      ensures action == "write" && !Banned(old(bans), ip, now) && !allowed ==>
        message == LimitedMessage
        && history == old(history)[ip := Pruned(old(history), ip, now)]
        && bans == old(bans)[ip := now + BanDuration]
      ensures action == "write" && allowed ==>
        message == ""
        && history == old(history)[ip := Pruned(old(history), ip, now) + [Event(now, action)]]
        && bans == old(bans) - {ip}
      ensures allowed && action == "write" ==>
        |history[ip]| <= MaxRequests && forall i :: 0 <= i < |history[ip]| ==> now - history[ip][i].ts < Window
    {
      if action != "write" {
        allowed, message := true, "";
      } else if Banned(bans, ip, now) {
        var remaining := Truncate(bans[ip] - now);
        allowed, message := false, BannedMessage(remaining);
      } else {
        allowed, message := RecordWrite(ip, now);
      }
    }

    /**
     * The write path of `check_rate_limit` outside a ban: an expired ban is
     * lifted and the history pruned to the window; then the write is recorded,
     * or the address is banned. Nothing reads the state in between, so the
     * new history and bans are written once each.
     */
    method RecordWrite(ip: string, now: real) returns (allowed: bool, message: string)
      requires Valid() && !Banned(bans, ip, now)
      modifies this
      ensures Valid()
      ensures allowed <==> WriteCount(Pruned(old(history), ip, now)) < MaxRequests
      ensures !allowed ==>
        message == LimitedMessage
        && history == old(history)[ip := Pruned(old(history), ip, now)]
        && bans == old(bans)[ip := now + BanDuration]
      ensures allowed ==>
        message == ""
        && history == old(history)[ip := Pruned(old(history), ip, now) + [Event(now, "write")]]
        && bans == old(bans) - {ip}
      ensures allowed ==>
        |history[ip]| <= MaxRequests && forall i :: 0 <= i < |history[ip]| ==> now - history[ip][i].ts < Window
    {
      var kept := Recent(History(ip), now);
      RecentOfWrites(History(ip), now);
      var writeCount := WriteCount(kept);
      if writeCount >= MaxRequests {
        history := history[ip := kept];
        bans := bans[ip := now + BanDuration];
        allowed, message := false, LimitedMessage;
      } else {
        var recorded := kept + [Event(now, "write")];
        RecordedInWindow(kept, now);
        history := history[ip := recorded];
        bans := bans - {ip};
        allowed, message := true, "";
      }
    }
  }

  /** A write admitted under the limit leaves at most `MaxRequests` writes, all inside the window. */
  lemma RecordedInWindow(kept: seq<Event>, now: real)
    requires AllWrites(kept) && WriteCount(kept) < MaxRequests
    requires forall i :: 0 <= i < |kept| ==> now - kept[i].ts < Window
    ensures AllWrites(kept + [Event(now, "write")])
    ensures |kept + [Event(now, "write")]| <= MaxRequests
    ensures forall i :: 0 <= i < |kept| + 1 ==> now - (kept + [Event(now, "write")])[i].ts < Window
  {
  }
}
