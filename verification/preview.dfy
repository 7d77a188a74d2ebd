/**
 * `smart_select_preview_images` of `src/utils/archive_handler.py`: pick the
 * preview images of an archive, preferring numbered file names (`01.jpg`,
 * `02.jpg`, ...) in numeric order, else the first names in code-point order.
 */
module Preview {
  import opened Wrappers
  import opened Strings
  import opened Paths
  import opened Slicing
  import opened Sorting
  import opened Lists

  /** The digits `s` starts with. */
  function LeadingDigits(s: string): (r: string)
    ensures AllDigits(r) && |r| <= |s| && r == s[..|r|]
    ensures |r| == |s| || !IsDigit(s[|r|])
  {
    if s != [] && IsDigit(s[0]) then
      var rest := LeadingDigits(s[1..]);
      assert s[..|rest| + 1] == [s[0]] + s[1..][..|rest|];
      [s[0]] + rest
    else []
  }

  /** The index of the first digit of `s`, if any. */
  function FirstDigit(s: string): (k: Option<nat>)
    ensures k.None? <==> forall i :: 0 <= i < |s| ==> !IsDigit(s[i])
    ensures k.Some? ==> k.value < |s| && IsDigit(s[k.value])
    ensures k.Some? ==> forall j :: 0 <= j < k.value ==> !IsDigit(s[j])
  {
    if s == [] then None
    else if IsDigit(s[0]) then Some(0)
    else
      match FirstDigit(s[1..])
      case None =>
        assert forall i :: 1 <= i < |s| ==> s[i] == s[1..][i - 1];
        None
      case Some(k) =>
        assert forall j :: 1 <= j < k + 1 ==> s[j] == s[1..][j - 1];
        Some(k + 1)
  }

  /**
   * `re.findall(r'(\d+)', s)[0]` when there is a match: the maximal run of
   * digits that starts at the first digit.
   */
  function FirstDigitRun(s: string): (r: Option<string>)
    ensures r.None? <==> forall i :: 0 <= i < |s| ==> !IsDigit(s[i])
    ensures r.Some? ==> IsDigitString(r.value)
  {
    match FirstDigit(s)
    case None => None
    case Some(k) => Some(LeadingDigits(s[k..]))
  }

  /**
   * The run found is the first one: it starts at the first digit of `s` and
   * ends at the next non-digit or at the end of `s`.
   */
  lemma FirstRunStartsAtFirstDigit(s: string)
    requires FirstDigitRun(s).Some?
    ensures FirstDigit(s).Some?
    ensures var k, run := FirstDigit(s).value, FirstDigitRun(s).value;
      && k + |run| <= |s| && run == s[k..k + |run|]
      && (k + |run| == |s| || !IsDigit(s[k + |run|]))
  {
    RunAt(s, FirstDigit(s).value);
  }

  /** The leading digits of a suffix, read in place. */
  lemma RunAt(s: string, k: nat)
    requires k <= |s|
    ensures var run := LeadingDigits(s[k..]);
      && k + |run| <= |s| && run == s[k..k + |run|]
      && (k + |run| == |s| || !IsDigit(s[k + |run|]))
  {
    var t := s[k..];
    var run := LeadingDigits(t);
    assert t[..|run|] == s[k..k + |run|];
    assert |run| < |t| ==> t[|run|] == s[k + |run|];
  }

  /** `int(re.findall(r'(\d+)', stem)[0])` for the stem of `path`, when the stem holds a digit. */
  function NumberOf(path: string): Option<nat> {
    match FirstDigitRun(Stem(path))
    case Some(run) => Some(Num(run))
    case None => None
  }

  /** Whether the stem of `path` contains a digit. */
  predicate HasNumber(path: string) {
    NumberOf(path).Some?
  }

  /** The number of `path`, paired with `path`. */
  function Tag(path: string): (nat, string) {
    (NumberOf(path).GetOr(0), path)
  }

  /** An entry of `NumberedImages`: a numbered image tagged with its number. */
  predicate Tagged(p: (nat, string)) {
    HasNumber(p.1) && p == Tag(p.1)
  }

  /** The numbered images with their numbers, in input order. */
  function NumberedImages(images: seq<string>): (numbered: seq<(nat, string)>)
    ensures numbered == [] <==> forall i :: 0 <= i < |images| ==> !HasNumber(images[i])
    ensures forall i :: 0 <= i < |numbered| ==> numbered[i].1 in images && Tagged(numbered[i])
  {
    var numbered := FilterMap(images, HasNumber, Tag);
    forall i | 0 <= i < |numbered| ensures numbered[i].1 in images && Tagged(numbered[i]) {
      var j :| 0 <= j < |images| && HasNumber(images[j]) && numbered[i] == Tag(images[j]);
    }
    numbered
  }

  /** `key=lambda x: x[0]`. */
  predicate ByNumber(a: (nat, string), b: (nat, string)) {
    a.0 <= b.0
  }

  /** Python's `<=` on `str`: code-point lexicographic order. */
  predicate StrLe(a: string, b: string) {
    a == [] || (b != [] && (a[0] < b[0] || (a[0] == b[0] && StrLe(a[1..], b[1..]))))
  }

  lemma {:induction false} StrLeTotal(a: string, b: string)
    ensures StrLe(a, b) || StrLe(b, a)
  {
    if a != [] && b != [] && a[0] == b[0] {
      StrLeTotal(a[1..], b[1..]);
    }
  }

  lemma {:induction false} StrLeTransitive(a: string, b: string, c: string)
    requires StrLe(a, b) && StrLe(b, c)
    ensures StrLe(a, c)
  {
    if a != [] && b != [] && c != [] && a[0] == b[0] && b[0] == c[0] {
      StrLeTransitive(a[1..], b[1..], c[1..]);
    }
  }

  /** Code-point order compares every pair of strings consistently. */
  lemma StrLeOrders()
    ensures TotalPreorder(StrLe)
  {
    forall a, b ensures StrLe(a, b) || StrLe(b, a) {
      StrLeTotal(a, b);
    }
    forall a, b, c | StrLe(a, b) && StrLe(b, c) ensures StrLe(a, c) {
      StrLeTransitive(a, b, c);
    }
  }

  lemma ByNumberOrders()
    ensures TotalPreorder(ByNumber)
  {
  }

  /** `[img for _, img in pairs]`. */
  function ImagePaths(pairs: seq<(nat, string)>): (paths: seq<string>)
    ensures |paths| == |pairs|
    ensures forall i :: 0 <= i < |pairs| ==> paths[i] == pairs[i].1
  {
    seq(|pairs|, i requires 0 <= i < |pairs| => pairs[i].1)
  }

  /** What `smart_select_preview_images` returns. */
  function Selection(images: seq<string>, count: int): (selected: seq<string>)
    ensures images == [] ==> selected == []
    ensures images != [] && |images| <= count ==> selected == images
    ensures count >= 0 ==> |selected| <= count
  {
    if images == [] then []
    else if |images| <= count then images
    else
      var numbered := NumberedImages(images);
      if numbered != [] then ImagePaths(Take(SortBy(numbered, ByNumber), count))
      else Take(SortBy(images, StrLe), count)
  }

  lemma NumberedFromInput(images: seq<string>, count: int)
    ensures forall i :: 0 <= i < |ImagePaths(Take(SortBy(NumberedImages(images), ByNumber), count))| ==>
      ImagePaths(Take(SortBy(NumberedImages(images), ByNumber), count))[i] in images
  {
    var numbered := NumberedImages(images);
    var sorted := SortBy(numbered, ByNumber);
    var selected := ImagePaths(Take(sorted, count));
    SortByMembers(numbered, ByNumber);
    forall i | 0 <= i < |selected| ensures selected[i] in images {
      assert selected[i] == sorted[i].1;
      var k :| 0 <= k < |numbered| && numbered[k] == sorted[i];
    }
  }

  /** Every selected image comes from the input. */
  lemma SelectionFromInput(images: seq<string>, count: int)
    ensures forall i :: 0 <= i < |Selection(images, count)| ==> Selection(images, count)[i] in images
  {
    if images != [] && |images| > count {
      if NumberedImages(images) != [] {
        NumberedFromInput(images, count);
      } else {
        SortByMembers(images, StrLe);
      }
    }
  }

  /** The loop of `smart_select_preview_images` that collects `(number, path)` pairs. */
  method CollectNumbered(images: seq<string>) returns (numbered: seq<(nat, string)>)
    ensures numbered == NumberedImages(images)
  {
    numbered := [];
    var i := 0;
    while i < |images|
      invariant 0 <= i <= |images|
      invariant numbered == FilterMap(images[..i], HasNumber, Tag)
    {
      var imgPath := images[i];
      FilterMapStep(images, i, HasNumber, Tag);
      var number := NumberOf(imgPath);
      if number.Some? {
        numbered := numbered + [(number.value, imgPath)];
      }
      i := i + 1;
    }
    assert images[..i] == images;
  }

  /**
   * `smart_select_preview_images`: the numbered images, then a stable sort by
   * number or a sort by name, then the first `count`.
   */
  method SmartSelect(images: seq<string>, count: int) returns (selected: seq<string>)
    ensures selected == Selection(images, count)
  {
    if images == [] {
      return [];
    }
    if |images| <= count {
      return images;
    }
    var numbered := CollectNumbered(images);
    if numbered != [] {
      var sorted := SortBy(numbered, ByNumber);
      selected := ImagePaths(Take(sorted, count));
    } else {
      var sorted := SortBy(images, StrLe);
      selected := Take(sorted, count);
    }
  }

  /**
   * When some stem holds a digit, the selection is the numbered images in
   * ascending order of their first number, and images tying on that number
   * keep their input order.
   */
  lemma NumberedSelection(images: seq<string>, count: int)
    requires |images| > count
    requires exists i :: 0 <= i < |images| && HasNumber(images[i])
    ensures Selection(images, count) == ImagePaths(Take(SortBy(NumberedImages(images), ByNumber), count))
    ensures forall i :: 0 <= i < |Selection(images, count)| ==> HasNumber(Selection(images, count)[i])
    ensures forall i, j :: 0 <= i < j < |Selection(images, count)| ==>
      Tag(Selection(images, count)[i]).0 <= Tag(Selection(images, count)[j]).0
  {
    var numbered := NumberedImages(images);
    var sorted := SortBy(numbered, ByNumber);
    var taken := Take(sorted, count);
    var selected := ImagePaths(taken);
    assert Selection(images, count) == selected;
    SortedTagged(numbered);
    forall i | 0 <= i < |selected| ensures HasNumber(selected[i]) {
      assert taken[i] == sorted[i] && Tagged(sorted[i]);
    }
    forall i, j | 0 <= i < j < |selected| ensures Tag(selected[i]).0 <= Tag(selected[j]).0 {
      assert taken[i] == sorted[i] && taken[j] == sorted[j];
      assert Tagged(sorted[i]) && Tagged(sorted[j]);
    }
  }

  /** Sorting numbered images by number keeps them numbered and orders their numbers. */
  lemma SortedTagged(numbered: seq<(nat, string)>)
    requires forall i :: 0 <= i < |numbered| ==> Tagged(numbered[i])
    ensures forall i :: 0 <= i < |SortBy(numbered, ByNumber)| ==> Tagged(SortBy(numbered, ByNumber)[i])
    ensures SortedBy(SortBy(numbered, ByNumber), ByNumber)
  {
    var sorted := SortBy(numbered, ByNumber);
    ByNumberOrders();
    SortBySorted(numbered, ByNumber);
    SortByMembers(numbered, ByNumber);
    forall i | 0 <= i < |sorted| ensures Tagged(sorted[i]) {
      var k :| 0 <= k < |numbered| && numbered[k] == sorted[i];
    }
  }

  /** Ties on the number keep the input order (Python's sort is stable). */
  lemma NumberedSelectionStable(images: seq<string>, k: (nat, string))
    ensures TiesWith(SortBy(NumberedImages(images), ByNumber), k, ByNumber)
            == TiesWith(NumberedImages(images), k, ByNumber)
  {
    ByNumberOrders();
    SortByStable(NumberedImages(images), k, ByNumber);
  }

  /**
   * Without any numbered image, the selection is the first `count` names in
   * code-point order.
   */
  lemma NamedSelection(images: seq<string>, count: int)
    requires |images| > count
    requires forall i :: 0 <= i < |images| ==> !HasNumber(images[i])
    ensures Selection(images, count) == Take(SortBy(images, StrLe), count)
    ensures SortedBy(Selection(images, count), StrLe)
    ensures count >= 0 ==> |Selection(images, count)| == count
  {
    StrLeOrders();
    SortBySorted(images, StrLe);
  }
}
