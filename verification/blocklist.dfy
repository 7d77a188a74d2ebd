/**
 * The blocklist file of `src/utils/security.py`: text read in Python's text
 * mode, one entry per line, blank lines and `#` lines ignored, appended to
 * and re-read on every lookup.
 */
module Blocklist {
  import opened Wrappers
  import opened Strings

  /** A line names an entry when it is non-blank after stripping and not a `#` comment. */
  predicate IsEntryLine(line: string) {
    var t := Strip(line);
    t != [] && t[0] != '#'
  }

  /** The entries named by a sequence of lines. */
  ghost function EntriesOf(lines: seq<string>): set<string> {
    set i | 0 <= i < |lines| && IsEntryLine(lines[i]) :: Strip(lines[i])
  }

  /**
   * Reading in text mode with universal newlines: `"\r\n"` and a lone `'\r'`
   * both end a line, and read as `'\n'`.
   */
  function UniversalNewlines(s: string): (r: string)
    ensures '\r' !in r
    decreases |s|
  {
    if s == [] then []
    else if s[0] == '\r' then "\n" + UniversalNewlines(if |s| > 1 && s[1] == '\n' then s[2..] else s[1..])
    else [s[0]] + UniversalNewlines(s[1..])
  }

  /** The lines `for line in f` yields, without their line ends. */
  function Lines(text: string): seq<string> {
    Split(UniversalNewlines(text), '\n')
  }

  /** A lone `'\r'` ends a line, and `"\r\n"` ends just one. */
  lemma CarriageReturnEndsLine()
    ensures Lines("a\rb\r\n") == ["a", "b", ""]
  {
    var s := "a\rb\r\n";
    assert s[1..][1..][1..][2..] == [];
    assert UniversalNewlines(s[1..][1..][1..]) == "\n";
    assert UniversalNewlines(s[1..][1..]) == "b\n";
    assert UniversalNewlines(s[1..]) == "\nb\n";
    assert UniversalNewlines(s) == "a\nb\n";
    assert "a\nb\n" == "a" + ['\n'] + ("b" + ['\n'] + "");
    SplitConcat("a", "b" + ['\n'] + "", '\n');
    SplitConcat("b", "", '\n');
    SplitJoin(["a"], '\n');
    SplitJoin(["b"], '\n');
    SplitJoin([""], '\n');
    assert Join(["a"], '\n') == "a";
    assert Join(["b"], '\n') == "b";
    assert Join([""], '\n') == "";
  }

  /** The entries a file holds: none when the file does not exist. */
  ghost function Entries(file: Option<string>): set<string> {
    match file
    case None => {}
    case Some(text) => EntriesOf(Lines(text))
  }

  /** A text without `'\r'` reads as itself. */
  lemma {:induction false} NoCarriageReturnKept(s: string)
    requires '\r' !in s
    ensures UniversalNewlines(s) == s
    decreases |s|
  {
    if s != [] {
      NoCarriageReturnKept(s[1..]);
    }
  }

  /** Reading distributes over a concatenation whose first part does not end in `'\r'`. */
  lemma {:induction false} NewlinesAppend(a: string, b: string)
    requires a == [] || a[|a| - 1] != '\r'
    ensures UniversalNewlines(a + b) == UniversalNewlines(a) + UniversalNewlines(b)
    decreases |a|
  {
    if a != [] {
      var ab := a + b;
      assert ab[0] == a[0];
      if a[0] == '\r' {
        assert |a| > 1;
        assert ab[1] == a[1];
        if a[1] == '\n' {
          assert ab[2..] == a[2..] + b;
          NewlinesAppend(a[2..], b);
          assert UniversalNewlines(ab) == "\n" + UniversalNewlines(a[2..] + b);
          assert UniversalNewlines(a) == "\n" + UniversalNewlines(a[2..]);
          assert "\n" + (UniversalNewlines(a[2..]) + UniversalNewlines(b)) == ("\n" + UniversalNewlines(a[2..])) + UniversalNewlines(b);
        } else {
          assert ab[1..] == a[1..] + b;
          NewlinesAppend(a[1..], b);
          assert UniversalNewlines(ab) == "\n" + UniversalNewlines(a[1..] + b);
          assert UniversalNewlines(a) == "\n" + UniversalNewlines(a[1..]);
          assert "\n" + (UniversalNewlines(a[1..]) + UniversalNewlines(b)) == ("\n" + UniversalNewlines(a[1..])) + UniversalNewlines(b);
        }
      } else {
        assert ab[1..] == a[1..] + b;
        NewlinesAppend(a[1..], b);
        assert UniversalNewlines(ab) == [a[0]] + UniversalNewlines(a[1..] + b);
        assert UniversalNewlines(a) == [a[0]] + UniversalNewlines(a[1..]);
        assert [a[0]] + (UniversalNewlines(a[1..]) + UniversalNewlines(b)) == ([a[0]] + UniversalNewlines(a[1..])) + UniversalNewlines(b);
      }
    } else {
      assert a + b == b;
    }
  }

  /** A text ending in `'\n'` still ends in `'\n'` once read. */
  lemma {:induction false} NewlineEndKept(s: string)
    requires s != [] && s[|s| - 1] == '\n'
    ensures var r := UniversalNewlines(s); r != [] && r[|r| - 1] == '\n'
    decreases |s|
  {
    if s[0] == '\r' {
      assert |s| > 1;
      if s[1] == '\n' && |s| > 2 {
        NewlineEndKept(s[2..]);
      } else if s[1] != '\n' {
        NewlineEndKept(s[1..]);
      }
    } else if |s| > 1 {
      NewlineEndKept(s[1..]);
    }
  }

  lemma EntriesOfConcat(a: seq<string>, b: seq<string>)
    ensures EntriesOf(a + b) == EntriesOf(a) + EntriesOf(b)
  {
    forall x | x in EntriesOf(a + b) ensures x in EntriesOf(a) + EntriesOf(b) {
      var i :| 0 <= i < |a + b| && IsEntryLine((a + b)[i]) && Strip((a + b)[i]) == x;
      if i >= |a| {
        assert (a + b)[i] == b[i - |a|];
      }
    }
    forall x | x in EntriesOf(a) + EntriesOf(b) ensures x in EntriesOf(a + b) {
      if x in EntriesOf(a) {
        var i :| 0 <= i < |a| && IsEntryLine(a[i]) && Strip(a[i]) == x;
        assert (a + b)[i] == a[i];
      } else {
        var i :| 0 <= i < |b| && IsEntryLine(b[i]) && Strip(b[i]) == x;
        assert (a + b)[|a| + i] == b[i];
      }
    }
  }

  lemma EntriesOfSnoc(lines: seq<string>, i: nat)
    requires i < |lines|
    ensures EntriesOf(lines[..i + 1])
            == EntriesOf(lines[..i]) + if IsEntryLine(lines[i]) then {Strip(lines[i])} else {}
  {
    assert lines[..i + 1] == lines[..i] + [lines[i]];
    EntriesOfConcat(lines[..i], [lines[i]]);
    assert [lines[i]][0] == lines[i];
  }

  /** A single-line string followed by a newline splits into itself and an empty piece. */
  lemma LineSplit(line: string)
    requires '\n' !in line
    ensures Split(line + "\n", '\n') == [line, []]
  {
    SplitJoin([line], '\n');
    assert Join([line], '\n') == line;
    assert line + "\n" == line + ['\n'] + [];
    SplitConcat(line, [], '\n');
  }

  /** A clean entry followed by a newline holds exactly that entry. */
  lemma EntryLine(ip: string)
    requires ip == Strip(ip) && ip != [] && ip[0] != '#'
    ensures EntriesOf([ip, []]) == {ip}
  {
    var lines := [ip, []];
    assert IsEntryLine(lines[0]);
    assert Strip(lines[0]) == ip;
    assert !IsEntryLine(lines[1]);
    assert forall i | 0 <= i < 2 && IsEntryLine(lines[i]) :: i == 0;
  }

  /** A text ending in a newline splits into its lines and a final empty piece. */
  lemma TrailingNewline(text: string, rest: string)
    requires text != [] && text[|text| - 1] == '\n'
    ensures Split(text + rest, '\n') == Split(text[..|text| - 1], '\n') + Split(rest, '\n')
  {
    var init := text[..|text| - 1];
    assert text + rest == init + ['\n'] + rest;
    SplitConcat(init, rest, '\n');
  }

  /** A text that reads back as itself: stripped, non-empty, single-line, not a comment. */
  predicate CleanEntry(ip: string) {
    ip == Strip(ip) && ip != [] && ip[0] != '#' && '\n' !in ip && '\r' !in ip
  }

  /** Absent, empty or ending with a newline: the next append starts a line of its own. */
  predicate EndsWithNewline(file: Option<string>) {
    file.Some? ==> file.value == [] || file.value[|file.value| - 1] == '\n'
  }

  /** Appending to an empty text leaves exactly the new entry. */
  lemma AppendToEmpty(ip: string)
    requires CleanEntry(ip)
    ensures EntriesOf(Split(ip + "\n", '\n')) == {ip}
  {
    LineSplit(ip);
    EntryLine(ip);
  }

  /** Appending after a final newline adds the new entry to the earlier ones. */
  lemma AppendAfterNewline(text: string, ip: string)
    requires CleanEntry(ip) && text != [] && text[|text| - 1] == '\n'
    ensures EntriesOf(Split(text + ip + "\n", '\n')) == EntriesOf(Split(text, '\n')) + {ip}
  {
    LineSplit(ip);
    EntryLine(ip);
    assert text + ip + "\n" == text + (ip + "\n");
    TrailingNewline(text, ip + "\n");
    TrailingNewline(text, []);
    assert text + [] == text;
    var before := Split(text[..|text| - 1], '\n');
    EntriesOfConcat(before, [[]]);
    EntriesOfConcat(before, [ip, []]);
    assert Split([], '\n') == [[]];
    assert !IsEntryLine([[]][0]);
  }

  /**
   * Appending `ip` as a line adds exactly `ip` to the entries, and every earlier
   * entry stays, provided `ip` is already a clean entry (stripped, non-empty,
   * single-line, not a comment) and the file is absent, empty or ends with a
   * newline, as every file this code writes does.
   */
  lemma AppendAddsEntry(file: Option<string>, ip: string)
    requires CleanEntry(ip) && EndsWithNewline(file)
    ensures Entries(Some(file.GetOr([]) + ip + "\n")) == Entries(file) + {ip}
  {
    var text := file.GetOr([]);
    NoCarriageReturnKept(ip + "\n");
    NewlinesAppend(text, ip + "\n");
    assert text + ip + "\n" == text + (ip + "\n");
    var read := UniversalNewlines(text);
    assert UniversalNewlines(text + ip + "\n") == read + ip + "\n";
    if text == [] {
      AppendToEmpty(ip);
      assert read + ip + "\n" == ip + "\n";
      assert Entries(file) == {} by {
        if file.Some? {
          assert Split([], '\n') == [[]];
          assert !IsEntryLine([[]][0]);
        }
      }
    } else {
      NewlineEndKept(text);
      AppendAfterNewline(read, ip);
    }
  }

  /** The blocklist file; `None` while it has never been written. */
  class BlocklistFile {
    var content: Option<string>

    constructor (content: Option<string>)
      ensures this.content == content
    {
      this.content := content;
    }

    /** `load_blacklist`: reads every line and collects the entries. */
    method Load() returns (blacklist: set<string>)
      ensures blacklist == Entries(content)
    {
      if content.None? {
        return {};
      }
      var lines := Lines(content.value);
      blacklist := {};
      var i := 0;
      while i < |lines|
        invariant 0 <= i <= |lines|
        invariant blacklist == EntriesOf(lines[..i])
      {
        var line := Strip(lines[i]);
        EntriesOfSnoc(lines, i);
        if line != [] && line[0] != '#' {
          blacklist := blacklist + {line};
        }
        i := i + 1;
      }
      assert lines[..i] == lines;
    }

    /** `is_blacklisted`: a fresh read of the file, then a membership test. */
    method IsBlacklisted(ip: string) returns (listed: bool)
      ensures listed <==> ip in Entries(content)
    {
      var blacklist := Load();
      listed := ip in blacklist;
    }

    /** `add_to_blacklist`: appends `ip` and a newline, creating the file if needed. */
    method Add(ip: string)
      modifies this
      ensures content == Some(old(content).GetOr([]) + ip + "\n")
      ensures CleanEntry(ip) && EndsWithNewline(old(content)) ==> Entries(content) == Entries(old(content)) + {ip}
    {
      if CleanEntry(ip) && EndsWithNewline(content) {
        AppendAddsEntry(content, ip);
      }
      content := Some(content.GetOr([]) + ip + "\n");
    }
  }
}
