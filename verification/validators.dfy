/**
 * The field validators of `src/utils/validators.py`. Each returns
 * `(ok, message)`; the regular expressions are written out as recognisers over
 * the characters they admit.
 */
module Validators {
  import opened Wrappers
  import opened Strings
  import opened Paths

  predicate IsLetter(c: char) {
    'a' <= c <= 'z' || 'A' <= c <= 'Z'
  }

  predicate IsAlnum(c: char) {
    IsLetter(c) || IsDigit(c)
  }

  predicate AllOf(s: string, p: char -> bool) {
    forall i :: 0 <= i < |s| ==> p(s[i])
  }

  /** `not value or value.strip() == ""`: an absent or blank optional field. */
  predicate Blank(value: Option<string>) {
    value.None? || value.value == [] || Strip(value.value) == []
  }

  // ---- email ----

  /** `[a-zA-Z0-9._%+-]` */
  predicate IsLocalChar(c: char) {
    IsAlnum(c) || c == '.' || c == '_' || c == '%' || c == '+' || c == '-'
  }

  /** `[a-zA-Z0-9.-]` */
  predicate IsDomainChar(c: char) {
    IsAlnum(c) || c == '.' || c == '-'
  }

  const EmailFormatMessage: string := "邮箱格式不正确"
  const EmailLengthMessage: string := "邮箱地址过长"

  /**
   * `^[a-zA-Z0-9._%+-]+@[a-zA-Z0-9.-]+\.[a-zA-Z]{2,}$` read literally: the
   * string is cut at an `@` and at a later `.` into a non-empty local part, a
   * non-empty domain body and at least two letters.
   */
  ghost predicate MatchesEmailPattern(e: string) {
    exists at, dot :: 0 < at && at + 1 < dot && dot + 3 <= |e| && EmailCutsAt(e, at, dot)
  }

  predicate EmailCutsAt(e: string, at: nat, dot: nat)
    requires at < dot < |e|
  {
    AllOf(e[..at], IsLocalChar) && e[at] == '@' && AllOf(e[at + 1..dot], IsDomainChar)
    && e[dot] == '.' && AllOf(e[dot + 1..], IsLetter)
  }

  /** The domain after the `@`: domain characters, a last dot after at least one of them, two letters or more after it. */
  predicate IsEmailDomain(d: string) {
    AllOf(d, IsDomainChar)
    && match LastDot(d)
       case None => false
       case Some(p) => p >= 1 && |d| - p - 1 >= 2 && AllOf(d[p + 1..], IsLetter)
  }

  /** A recogniser for the email pattern: cut at the first `@`, then at the last `.`. */
  predicate IsEmail(e: string) {
    match IndexOf(e, '@')
    case None => false
    case Some(at) => at > 0 && AllOf(e[..at], IsLocalChar) && IsEmailDomain(e[at + 1..])
  }

  lemma LastDotAt(s: string, p: nat)
    requires p < |s| && s[p] == '.' && forall j :: p < j < |s| ==> s[j] != '.'
    ensures LastDot(s) == Some(p)
  {
  }

  /** A local part of local characters holds no `@`, so the `@` after it is the first. */
  lemma FirstAt(e: string, at: nat)
    requires at < |e| && e[at] == '@' && AllOf(e[..at], IsLocalChar)
    ensures IndexOf(e, '@') == Some(at)
  {
    assert '@' !in e[..at] by {
      forall i | 0 <= i < at ensures e[..at][i] != '@' {
        assert IsLocalChar(e[..at][i]);
      }
    }
  }

  /** A domain body, a dot and letters form a domain the recogniser accepts. */
  lemma DomainOfCut(d: string, p: nat)
    requires 1 <= p && p + 2 < |d| && d[p] == '.'
    requires AllOf(d[..p], IsDomainChar) && AllOf(d[p + 1..], IsLetter)
    ensures IsEmailDomain(d)
  {
    forall j | p < j < |d| ensures d[j] != '.' {
      assert IsLetter(d[p + 1..][j - p - 1]);
    }
    LastDotAt(d, p);
    forall i | 0 <= i < |d| ensures IsDomainChar(d[i]) {
      if i < p {
        assert d[..p][i] == d[i];
      } else if i > p {
        assert IsLetter(d[p + 1..][i - p - 1]);
      }
    }
  }

  lemma EmailRecogniserSound(e: string)
    requires IsEmail(e)
    ensures MatchesEmailPattern(e)
  {
    var at := IndexOf(e, '@').value;
    var d := e[at + 1..];
    var p := LastDot(d).value;
    var dot := at + 1 + p;
    assert e[at + 1..dot] == d[..p];
    assert e[dot + 1..] == d[p + 1..];
    assert AllOf(d[..p], IsDomainChar) by {
      forall i | 0 <= i < p ensures IsDomainChar(d[..p][i]) {
        assert d[..p][i] == d[i];
      }
    }
    assert EmailCutsAt(e, at, dot);
  }

  lemma EmailRecogniserComplete(e: string, at: nat, dot: nat)
    requires 0 < at && at + 1 < dot && dot + 3 <= |e| && EmailCutsAt(e, at, dot)
    ensures IsEmail(e)
  {
    FirstAt(e, at);
    var d := e[at + 1..];
    var p := dot - at - 1;
    assert d[..p] == e[at + 1..dot];
    assert d[p + 1..] == e[dot + 1..];
    DomainOfCut(d, p);
  }

  /** The recogniser accepts exactly the strings the pattern matches. */
  lemma EmailRecogniser(e: string)
    ensures IsEmail(e) <==> MatchesEmailPattern(e)
  {
    if IsEmail(e) {
      EmailRecogniserSound(e);
    }
    if MatchesEmailPattern(e) {
      var at, dot :| 0 < at && at + 1 < dot && dot + 3 <= |e| && EmailCutsAt(e, at, dot);
      EmailRecogniserComplete(e, at, dot);
    }
  }

  /**
   * `validate_email`: blank is fine; otherwise the stripped text must match
   * the pattern, and only then is its length (at most 254) checked.
   */
  function ValidateEmail(email: Option<string>): (r: (bool, string))
    ensures Blank(email) ==> r == (true, "")
    ensures !Blank(email) ==>
      var e := Strip(email.value);
      && (r.0 <==> MatchesEmailPattern(e) && |e| <= 254)
      && (!MatchesEmailPattern(e) ==> r.1 == EmailFormatMessage)
      && (MatchesEmailPattern(e) && |e| > 254 ==> r.1 == EmailLengthMessage)
      && (r.0 ==> r.1 == "")
  {
    if email.None? || email.value == [] || Strip(email.value) == [] then (true, "")
    else
      var e := Strip(email.value);
      EmailRecogniser(e);
      if !IsEmail(e) then (false, EmailFormatMessage)
      else if |e| > 254 then (false, EmailLengthMessage)
      else (true, "")
  }

  // ---- URL ----

  const UrlSchemeMessage: string := "URL 必须以 http:// 或 https:// 开头"
  const UrlFormatMessage: string := "URL 格式不正确"
  const UrlLengthMessage: string := "URL 地址过长"

  predicate IsLabelChar(c: char) {
    IsAlnum(c) || c == '-'
  }

  /** `[a-zA-Z0-9]([a-zA-Z0-9-]{0,61}[a-zA-Z0-9])?`: 1 to 63 characters, no hyphen at either end. */
  predicate IsLabel(l: string) {
    1 <= |l| <= 63 && AllOf(l, IsLabelChar) && IsAlnum(l[0]) && IsAlnum(l[|l| - 1])
  }

  /** One or more labels joined by dots. */
  predicate IsHost(h: string) {
    var labels := Split(h, '.');
    forall k :: 0 <= k < |labels| ==> IsLabel(labels[k])
  }

  predicate HasScheme(url: string) {
    StartsWith(url, "http://") || StartsWith(url, "https://")
  }

  /** The text after `http://` or `https://`. */
  function AfterScheme(url: string): string
    requires HasScheme(url)
  {
    if StartsWith(url, "https://") then url[8..] else url[7..]
  }

  /** Where the host ends: at the first `/`, or at the end. */
  function HostEnd(rest: string): (k: nat)
    ensures k <= |rest|
    ensures '/' !in rest[..k]
    ensures k < |rest| ==> rest[k] == '/'
  {
    match IndexOf(rest, '/')
    case Some(k) => k
    case None => |rest|
  }

  /**
   * The URL pattern after the scheme: a host of labels, then nothing or a
   * `/` followed by characters other than a newline (`(/.*)?$`).
   */
  predicate MatchesUrlPattern(url: string)
    requires HasScheme(url)
  {
    var rest := AfterScheme(url);
    var k := HostEnd(rest);
    IsHost(rest[..k]) && '\n' !in rest[k..]
  }

  /**
   * `validate_url`: blank is fine; then the scheme, the pattern and the length
   * (at most 2048), each with its own message, in that order.
   */
  function ValidateUrl(url: Option<string>): (r: (bool, string))
    ensures r.0 ==> r.1 == ""
    ensures Blank(url) ==> r == (true, "")
    ensures !Blank(url) ==>
      var u := Strip(url.value);
      && (r.0 <==> HasScheme(u) && MatchesUrlPattern(u) && |u| <= 2048)
      && (!HasScheme(u) ==> r.1 == UrlSchemeMessage)
      && (HasScheme(u) && !MatchesUrlPattern(u) ==> r.1 == UrlFormatMessage)
      && (HasScheme(u) && MatchesUrlPattern(u) && |u| > 2048 ==> r.1 == UrlLengthMessage)
  {
    if url.None? || url.value == [] || Strip(url.value) == [] then (true, "")
    else
      var u := Strip(url.value);
      if !HasScheme(u) then (false, UrlSchemeMessage)
      else if !MatchesUrlPattern(u) then (false, UrlFormatMessage)
      else if |u| > 2048 then (false, UrlLengthMessage)
      else (true, "")
  }

  lemma LabelsHaveNoDot(labels: seq<string>)
    requires forall k :: 0 <= k < |labels| ==> IsLabel(labels[k])
    ensures forall k :: 0 <= k < |labels| ==> '.' !in labels[k] && '/' !in labels[k]
  {
    forall k, i | 0 <= k < |labels| && 0 <= i < |labels[k]|
      ensures labels[k][i] != '.' && labels[k][i] != '/'
    {
      assert IsLabelChar(labels[k][i]);
    }
  }

  lemma {:induction false} JoinKeepsOut(parts: seq<string>, sep: char, c: char)
    requires |parts| >= 1 && c != sep
    requires forall k :: 0 <= k < |parts| ==> c !in parts[k]
    ensures c !in Join(parts, sep)
    decreases |parts|
  {
    if |parts| > 1 {
      JoinKeepsOut(parts[1..], sep, c);
    }
  }

  /** A host ends where the path's `/` begins. */
  lemma HostEndAfter(host: string, path: string)
    requires '/' !in host
    requires path == [] || path[0] == '/'
    ensures HostEnd(host + path) == |host|
  {
    var rest := host + path;
    assert forall i :: 0 <= i < |host| ==> rest[i] == host[i];
    assert rest[..|host|] == host;
    assert path != [] ==> rest[|host|] == '/';
  }

  /** Labels joined by dots form a host. */
  lemma JoinedLabelsAreHost(labels: seq<string>)
    requires |labels| >= 1 && forall k :: 0 <= k < |labels| ==> IsLabel(labels[k])
    ensures IsHost(Join(labels, '.')) && '/' !in Join(labels, '.')
  {
    LabelsHaveNoDot(labels);
    SplitJoin(labels, '.');
    JoinKeepsOut(labels, '.', '/');
  }

  /**
   * Any `https://` URL built from valid labels and a newline-free path that
   * starts with `/` is accepted by the pattern.
   */
  lemma LabelledUrlMatches(labels: seq<string>, path: string)
    requires |labels| >= 1 && forall k :: 0 <= k < |labels| ==> IsLabel(labels[k])
    requires path == [] || (path[0] == '/' && '\n' !in path)
    ensures HasScheme("https://" + Join(labels, '.') + path)
    ensures MatchesUrlPattern("https://" + Join(labels, '.') + path)
  {
    var host := Join(labels, '.');
    var rest := host + path;
    var url := "https://" + rest;
    assert url == "https://" + host + path;
    assert url[..8] == "https://" && url[8..] == rest;
    JoinedLabelsAreHost(labels);
    HostEndAfter(host, path);
    assert rest[..|host|] == host && rest[|host|..] == path;
  }

  // ---- QQ ----

  const QqDigitsMessage: string := "QQ 号必须是纯数字"
  const QqLengthMessage: string := "QQ 号长度必须在 5-11 位之间"

  /** `validate_qq`: blank is fine; otherwise 5 to 11 digits after stripping. */
  function ValidateQq(qq: Option<string>): (r: (bool, string))
    ensures r.0 ==> r.1 == ""
    ensures Blank(qq) ==> r == (true, "")
    ensures !Blank(qq) ==>
      var q := Strip(qq.value);
      && (r.0 <==> IsDigitString(q) && 5 <= |q| <= 11)
      && (!IsDigitString(q) ==> r.1 == QqDigitsMessage)
      && (IsDigitString(q) && !(5 <= |q| <= 11) ==> r.1 == QqLengthMessage)
  {
    if qq.None? || qq.value == [] || Strip(qq.value) == [] then (true, "")
    else
      var q := Strip(qq.value);
      if !IsDigitString(q) then (false, QqDigitsMessage)
      else if |q| < 5 || |q| > 11 then (false, QqLengthMessage)
      else (true, "")
  }

  // ---- nickname ----

  const NicknameLengthMessage: string := "昵称长度不能超过 20 个字符"

  /** The characters a nickname may not contain, in the order they are checked. */
  const ForbiddenChars: seq<char> := ['<', '>', '&', '"', '\'', '\\', '/', '\n', '\r', '\t']

  function ForbiddenCharMessage(c: char): string {
    "昵称不能包含特殊字符: " + [c]
  }

  /** The first forbidden character, in list order, that `s` contains. */
  predicate FirstForbiddenIs(s: string, k: int) {
    0 <= k < |ForbiddenChars| && ForbiddenChars[k] in s
    && forall j :: 0 <= j < k ==> ForbiddenChars[j] !in s
  }

  /**
   * `validate_nickname`: an absent, empty or blank nickname is fine (a default
   * is used); otherwise the stripped nickname has at most 20 characters and
   * none of the forbidden ones, and a refusal names the first forbidden
   * character in list order.
   */
  method ValidateNickname(nickname: Option<string>) returns (ok: bool, message: string)
    ensures Blank(nickname) ==> ok && message == ""
    ensures !Blank(nickname) ==>
      var n := Strip(nickname.value);
      && (ok <==> |n| <= 20 && forall j :: 0 <= j < |ForbiddenChars| ==> ForbiddenChars[j] !in n)
      && (|n| > 20 ==> message == NicknameLengthMessage)
      && (|n| <= 20 ==> forall k :: FirstForbiddenIs(n, k) ==> message == ForbiddenCharMessage(ForbiddenChars[k]))
      && (ok ==> message == "")
  {
    if nickname.None? || nickname.value == [] {
      return true, "";
    }
    var n := Strip(nickname.value);
    if |n| == 0 {
      return true, "";
    }
    if |n| > 20 {
      return false, NicknameLengthMessage;
    }
    var i := 0;
    while i < |ForbiddenChars|
      invariant 0 <= i <= |ForbiddenChars|
      invariant forall j :: 0 <= j < i ==> ForbiddenChars[j] !in n
    {
      var c := ForbiddenChars[i];
      if c in n {
        assert FirstForbiddenIs(n, i);
        assert forall k :: FirstForbiddenIs(n, k) ==> k == i;
        return false, ForbiddenCharMessage(c);
      }
      i := i + 1;
    }
    return true, "";
  }

  // ---- emoji ----

  const EmojiFormatMessage: string := "头像必须是一个有效的 emoji 表情"
  const EmojiLengthMessage: string := "头像只能是一个 emoji 表情"

  /** The character class of the emoji pattern, range by range. */
  predicate InEmojiRanges(c: char) {
    ('\U{1F600}' <= c <= '\U{1F64F}')
    || ('\U{1F300}' <= c <= '\U{1F5FF}')
    || ('\U{1F680}' <= c <= '\U{1F6FF}')
    || ('\U{1F700}' <= c <= '\U{1F77F}')
    || ('\U{1F780}' <= c <= '\U{1F7FF}')
    || ('\U{1F800}' <= c <= '\U{1F8FF}')
    || ('\U{1F900}' <= c <= '\U{1F9FF}')
    || ('\U{1FA00}' <= c <= '\U{1FA6F}')
    || ('\U{1FA70}' <= c <= '\U{1FAFF}')
    || ('\U{2702}' <= c <= '\U{27B0}')
    || ('\U{24C2}' <= c <= '\U{1F251}')
  }

  /**
   * The eleven ranges collapse to three: U+24C2..U+1F251, which swallows the
   * dingbats range, U+1F300..U+1F64F and U+1F680..U+1FAFF. The ornamental
   * dingbats U+1F650..U+1F67F fall in the gap and are refused.
   */
  lemma EmojiRangesCollapse(c: char)
    ensures InEmojiRanges(c) <==>
      || ('\U{24C2}' <= c <= '\U{1F251}')
      || ('\U{1F300}' <= c <= '\U{1F64F}')
      || ('\U{1F680}' <= c <= '\U{1FAFF}')
  {
  }

  /**
   * `validate_emoji`: absent or empty is fine; otherwise every character lies
   * in the ranges, and then at most 10 characters.
   */
  function ValidateEmoji(emoji: Option<string>): (r: (bool, string))
    ensures r.0 ==> r.1 == ""
    ensures emoji.None? || emoji.value == [] ==> r == (true, "")
    ensures emoji.Some? && emoji.value != [] ==>
      var e := emoji.value;
      && (r.0 <==> AllOf(e, InEmojiRanges) && |e| <= 10)
      && (!AllOf(e, InEmojiRanges) ==> r.1 == EmojiFormatMessage)
      && (AllOf(e, InEmojiRanges) && |e| > 10 ==> r.1 == EmojiLengthMessage)
  {
    if emoji.None? || emoji.value == [] then (true, "")
    else if !AllOf(emoji.value, InEmojiRanges) then (false, EmojiFormatMessage)
    else if |emoji.value| > 10 then (false, EmojiLengthMessage)
    else (true, "")
  }

  // ---- content ----

  const ContentEmptyMessage: string := "内容不能为空"
  const ContentLengthMessage: string := "内容长度不能超过 10000 个字符"

  /** `validate_content`: between 1 and 10000 characters after stripping. */
  function ValidateContent(content: string): (r: (bool, string))
    ensures r.0 ==> r.1 == ""
    ensures r.0 <==> 1 <= |Strip(content)| <= 10000
    ensures Strip(content) == [] ==> r.1 == ContentEmptyMessage
    ensures |Strip(content)| > 10000 ==> r.1 == ContentLengthMessage
  {
    if content == [] || Strip(content) == [] then (false, ContentEmptyMessage)
    else if |Strip(content)| > 10000 then (false, ContentLengthMessage)
    else (true, "")
  }
}
