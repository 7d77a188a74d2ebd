/**
 * The honeypot and form-timing check of `src/utils/security.py`. The form
 * carries a hidden field that people leave empty and the time it was served;
 * `now` is the clock at submission, in seconds.
 */
module Honeypot {
  import opened Wrappers
  import opened Strings

  const TrapMessage: string := "检测到异常请求"
  const TooFastMessage: string := "提交过快，请稍后再试"
  const ExpiredMessage: string := "表单已过期，请刷新页面"

  const MinElapsed: real := 3.0
  const MaxElapsed: real := 3600.0

  function Pow10(n: nat): (p: nat)
    ensures p >= 1
  {
    if n == 0 then 1 else 10 * Pow10(n - 1)
  }

  /** The value of the decimal numeral `whole.frac`. */
  function DecimalValue(whole: string, frac: string): real
    requires AllDigits(whole) && AllDigits(frac)
  {
    Num(whole) as real + Num(frac) as real / Pow10(|frac|) as real
  }

  /**
   * Python's `float(s)` on a plain decimal numeral: optional surrounding
   * whitespace, an optional sign, digits with at most one `.`, and at least
   * one digit. `None` where `float` raises.
   */
  function ParseFloat(s: string): (r: Option<real>)
  {
    var t := Strip(s);
    var negative := t != [] && t[0] == '-';
    var body := if t != [] && (t[0] == '+' || t[0] == '-') then t[1..] else t;
    var parts := Split(body, '.');
    if |parts| == 1 && IsDigitString(parts[0]) then
      var v := Num(parts[0]) as real;
      Some(if negative then -v else v)
    else if |parts| == 2 && AllDigits(parts[0]) && AllDigits(parts[1]) && |parts[0]| + |parts[1]| >= 1 then
      var v := DecimalValue(parts[0], parts[1]);
      Some(if negative then -v else v)
    else None
  }

  /** Every text `int()` accepts is read by `float()` as the same number. */
  lemma ParseFloatOfInt(s: string)
    requires ParseInt(s).Some?
    ensures ParseFloat(s) == Some(ParseInt(s).value as real)
  {
    var t := Strip(s);
    var body := if t != [] && (t[0] == '+' || t[0] == '-') then t[1..] else t;
    assert IsDigitString(body);
    forall i | 0 <= i < |body| ensures body[i] != '.' {
      assert IsDigit(body[i]);
    }
    SplitJoin([body], '.');
    assert Join([body], '.') == body;
  }

  /** `x` read back from `str(x)` for a whole number of seconds. */
  lemma ParseFloatOfNat(n: nat)
    ensures ParseFloat(NatToString(n)) == Some(n as real)
  {
    ParseIntOfNat(n);
    ParseFloatOfInt(NatToString(n));
  }

  /** `honeypot_value and honeypot_value.strip()`: the hidden field holds something visible. */
  predicate Filled(honeypot: Option<string>) {
    honeypot.Some? && honeypot.value != [] && Strip(honeypot.value) != []
  }

  /** The load time the form reports, when it reports one `float()` can read. */
  function LoadTime(formTimestamp: Option<string>): Option<real> {
    if formTimestamp.Some? && formTimestamp.value != [] then ParseFloat(formTimestamp.value) else None
  }

  /**
   * `check_honeypot`: a filled hidden field is refused whatever the
   * timestamp; a readable timestamp must lie between 3 and 3600 seconds
   * before `now`; an absent or unreadable one is not checked.
   */
  function CheckHoneypot(honeypot: Option<string>, formTimestamp: Option<string>, now: real): (result: (bool, string))
    ensures Filled(honeypot) ==> result == (false, TrapMessage)
    ensures result.0 <==>
      !Filled(honeypot)
      && (LoadTime(formTimestamp).Some? ==> MinElapsed <= now - LoadTime(formTimestamp).value <= MaxElapsed)
    ensures result.0 ==> result.1 == []
    ensures !Filled(honeypot) && LoadTime(formTimestamp).Some? ==>
      var elapsed := now - LoadTime(formTimestamp).value;
      (elapsed < MinElapsed ==> result.1 == TooFastMessage)
      && (elapsed > MaxElapsed ==> result.1 == ExpiredMessage)
  {
    if honeypot.Some? && honeypot.value != [] && Strip(honeypot.value) != [] then
      (false, TrapMessage)
    else if formTimestamp.Some? && formTimestamp.value != [] then
      match ParseFloat(formTimestamp.value)
      case None => (true, "")
      case Some(loadTime) =>
        var elapsed := now - loadTime;
        if elapsed < MinElapsed then (false, TooFastMessage)
        else if elapsed > MaxElapsed then (false, ExpiredMessage)
        else (true, "")
    else (true, "")
  }

  /** An unreadable timestamp is treated exactly like a missing one. */
  lemma UnreadableTimestampIgnored(honeypot: Option<string>, ts: string, now: real)
    requires ParseFloat(ts) == None
    ensures CheckHoneypot(honeypot, Some(ts), now) == CheckHoneypot(honeypot, None, now)
  {
  }

  /**
   * A form served at whole second `served` and submitted between 3 and 3600
   * seconds later, with the hidden field left blank, passes.
   */
  lemma TimelySubmissionPasses(honeypot: Option<string>, served: nat, now: real)
    requires !Filled(honeypot)
    requires MinElapsed <= now - served as real <= MaxElapsed
    ensures CheckHoneypot(honeypot, Some(NatToString(served)), now) == (true, "")
  {
    ParseFloatOfNat(served);
  }
}
