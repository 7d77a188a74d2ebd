/**
 * Region classification of `src/utils/security.py`: local addresses, the
 * dotted-quad to integer conversion, the fallback table of IPv4 ranges
 * allocated to mainland China, and the region block built on them.
 */
module Region {
  import opened Wrappers
  import opened Strings
  import opened Lists

  /** The addresses `get_country_code` reports as `LOCAL` before any lookup. */
  predicate IsLocal(ip: string) {
    ip == "127.0.0.1" || ip == "localhost" || ip == "::1"
    || StartsWith(ip, "192.168.") || StartsWith(ip, "10.")
  }

  /** `(a << 24) + (b << 16) + (c << 8) + d` on Python integers. */
  function Octets(a: int, b: int, c: int, d: int): int {
    a * 0x100_0000 + b * 0x1_0000 + c * 0x100 + d
  }

  /**
   * `ip_to_int`: the first four dot-separated parts read with `int()`;
   * 0 when there are fewer than four parts or one of them is not a number.
   * Further parts are ignored.
   */
  function IpToInt(ip: string): (n: int)
  {
    var parts := Split(ip, '.');
    if |parts| < 4 then 0
    else
      match MapAll(parts[..4], ParseInt)
      case Some(v) => Octets(v[0], v[1], v[2], v[3])
      case None => 0
  }

  /** Fewer than four parts, or a part among the first four that `int()` rejects, gives 0. */
  lemma IpToIntMalformed(ip: string)
    ensures |Split(ip, '.')| < 4 ==> IpToInt(ip) == 0
    ensures (exists k :: 0 <= k < 4 && k < |Split(ip, '.')| && ParseInt(Split(ip, '.')[k]).None?) ==> IpToInt(ip) == 0
  {
    var parts := Split(ip, '.');
    if |parts| >= 4 {
      assert forall k :: 0 <= k < 4 ==> parts[..4][k] == parts[k];
    }
  }

  /** The dotted-quad text `"a.b.c.d"`. */
  function FormatQuad(a: nat, b: nat, c: nat, d: nat): string {
    Join([NatToString(a), NatToString(b), NatToString(c), NatToString(d)], '.')
  }

  lemma NoDotInDigits(s: string)
    requires IsDigitString(s)
    ensures '.' !in s
  {
    forall i | 0 <= i < |s| ensures s[i] != '.' {
      assert IsDigit(s[i]);
    }
  }

  /** The four parts of a formatted quad are its four numbers. */
  lemma SplitQuad(a: nat, b: nat, c: nat, d: nat)
    ensures Split(FormatQuad(a, b, c, d), '.')
            == [NatToString(a), NatToString(b), NatToString(c), NatToString(d)]
  {
    var parts := [NatToString(a), NatToString(b), NatToString(c), NatToString(d)];
    NoDotInDigits(parts[0]);
    NoDotInDigits(parts[1]);
    NoDotInDigits(parts[2]);
    NoDotInDigits(parts[3]);
    SplitJoin(parts, '.');
  }

  /** The decimal text of a number reads back as that number. */
  lemma ReadsBack(part: string, n: nat)
    requires part == NatToString(n)
    ensures ParseInt(part) == Some(n)
  {
    ParseIntOfNat(n);
  }

  /** The decimal texts of four numbers read back as those numbers. */
  lemma QuadParses(parts: seq<string>, a: nat, b: nat, c: nat, d: nat)
    requires parts == [NatToString(a), NatToString(b), NatToString(c), NatToString(d)]
    ensures MapAll(parts[..4], ParseInt) == Some([a, b, c, d])
  {
    ReadsBack(parts[0], a);
    ReadsBack(parts[1], b);
    ReadsBack(parts[2], c);
    ReadsBack(parts[3], d);
    var values := [a, b, c, d];
    forall i | 0 <= i < 4 ensures ParseInt(parts[i]) == Some(values[i]) {
      if i == 0 {} else if i == 1 {} else if i == 2 {} else {}
    }
    assert parts[..4] == parts;
    MapAllSome(parts, ParseInt, values);
  }

  /** `ip_to_int("a.b.c.d") == a*2^24 + b*2^16 + c*2^8 + d`. */
  lemma IpToIntOfQuad(a: nat, b: nat, c: nat, d: nat)
    ensures IpToInt(FormatQuad(a, b, c, d)) == Octets(a, b, c, d)
  {
    SplitQuad(a, b, c, d);
    QuadParses(Split(FormatQuad(a, b, c, d), '.'), a, b, c, d);
  }

  /**
   * `_get_china_ip_ranges`: inclusive `(start, end)` pairs, in the table's
   * order. It is written in six blocks of twelve so that each block can be
   * checked on its own.
   */
  const ChinaRanges: seq<(int, int)> :=
    ChinaBlock0 + ChinaBlock1 + ChinaBlock2 + ChinaBlock3 + ChinaBlock4 + ChinaBlock5

  const ChinaBlock0: seq<(int, int)> := [
    (Octets(1, 0, 1, 0), Octets(1, 0, 3, 255)),
    (Octets(1, 0, 8, 0), Octets(1, 0, 15, 255)),
    (Octets(1, 0, 32, 0), Octets(1, 0, 63, 255)),
    (Octets(1, 1, 0, 0), Octets(1, 1, 0, 255)),
    (Octets(1, 1, 2, 0), Octets(1, 1, 63, 255)),
    (Octets(1, 2, 0, 0), Octets(1, 2, 255, 255)),
    (Octets(1, 4, 1, 0), Octets(1, 4, 127, 255)),
    (Octets(1, 8, 0, 0), Octets(1, 8, 255, 255)),
    (Octets(1, 12, 0, 0), Octets(1, 15, 255, 255)),
    (Octets(1, 24, 0, 0), Octets(1, 31, 255, 255)),
    (Octets(1, 45, 0, 0), Octets(1, 45, 255, 255)),
    (Octets(1, 48, 0, 0), Octets(1, 51, 255, 255))
  ]

  const ChinaBlock1: seq<(int, int)> := [
    (Octets(1, 56, 0, 0), Octets(1, 63, 255, 255)),
    (Octets(1, 68, 0, 0), Octets(1, 71, 255, 255)),
    (Octets(1, 80, 0, 0), Octets(1, 95, 255, 255)),
    (Octets(1, 116, 0, 0), Octets(1, 119, 255, 255)),
    (Octets(1, 180, 0, 0), Octets(1, 183, 255, 255)),
    (Octets(1, 188, 0, 0), Octets(1, 191, 255, 255)),
    (Octets(1, 192, 0, 0), Octets(1, 207, 255, 255)),
    (Octets(14, 0, 0, 0), Octets(14, 255, 255, 255)),
    (Octets(27, 0, 0, 0), Octets(27, 255, 255, 255)),
    (Octets(36, 0, 0, 0), Octets(36, 255, 255, 255)),
    (Octets(39, 0, 0, 0), Octets(39, 255, 255, 255)),
    (Octets(42, 0, 0, 0), Octets(42, 255, 255, 255))
  ]

  const ChinaBlock2: seq<(int, int)> := [
    (Octets(49, 0, 0, 0), Octets(49, 255, 255, 255)),
    (Octets(58, 0, 0, 0), Octets(58, 255, 255, 255)),
    (Octets(59, 0, 0, 0), Octets(59, 255, 255, 255)),
    (Octets(60, 0, 0, 0), Octets(60, 255, 255, 255)),
    (Octets(61, 0, 0, 0), Octets(61, 255, 255, 255)),
    (Octets(101, 0, 0, 0), Octets(101, 255, 255, 255)),
    (Octets(103, 0, 0, 0), Octets(103, 255, 255, 255)),
    (Octets(106, 0, 0, 0), Octets(106, 255, 255, 255)),
    (Octets(110, 0, 0, 0), Octets(110, 255, 255, 255)),
    (Octets(111, 0, 0, 0), Octets(111, 255, 255, 255)),
    (Octets(112, 0, 0, 0), Octets(112, 255, 255, 255)),
    (Octets(113, 0, 0, 0), Octets(113, 255, 255, 255))
  ]

  const ChinaBlock3: seq<(int, int)> := [
    (Octets(114, 0, 0, 0), Octets(114, 255, 255, 255)),
    (Octets(115, 0, 0, 0), Octets(115, 255, 255, 255)),
    (Octets(116, 0, 0, 0), Octets(116, 255, 255, 255)),
    (Octets(117, 0, 0, 0), Octets(117, 255, 255, 255)),
    (Octets(118, 0, 0, 0), Octets(118, 255, 255, 255)),
    (Octets(119, 0, 0, 0), Octets(119, 255, 255, 255)),
    (Octets(120, 0, 0, 0), Octets(120, 255, 255, 255)),
    (Octets(121, 0, 0, 0), Octets(121, 255, 255, 255)),
    (Octets(122, 0, 0, 0), Octets(122, 255, 255, 255)),
    (Octets(123, 0, 0, 0), Octets(123, 255, 255, 255)),
    (Octets(124, 0, 0, 0), Octets(124, 255, 255, 255)),
    (Octets(125, 0, 0, 0), Octets(125, 255, 255, 255))
  ]

  const ChinaBlock4: seq<(int, int)> := [
    (Octets(126, 0, 0, 0), Octets(126, 255, 255, 255)),
    (Octets(139, 0, 0, 0), Octets(139, 255, 255, 255)),
    (Octets(140, 0, 0, 0), Octets(140, 255, 255, 255)),
    (Octets(144, 0, 0, 0), Octets(144, 255, 255, 255)),
    (Octets(150, 0, 0, 0), Octets(150, 255, 255, 255)),
    (Octets(153, 0, 0, 0), Octets(153, 255, 255, 255)),
    (Octets(157, 0, 0, 0), Octets(157, 255, 255, 255)),
    (Octets(159, 0, 0, 0), Octets(159, 255, 255, 255)),
    (Octets(163, 0, 0, 0), Octets(163, 255, 255, 255)),
    (Octets(171, 0, 0, 0), Octets(171, 255, 255, 255)),
    (Octets(175, 0, 0, 0), Octets(175, 255, 255, 255)),
    (Octets(180, 0, 0, 0), Octets(180, 255, 255, 255))
  ]

  const ChinaBlock5: seq<(int, int)> := [
    (Octets(182, 0, 0, 0), Octets(182, 255, 255, 255)),
    (Octets(183, 0, 0, 0), Octets(183, 255, 255, 255)),
    (Octets(202, 0, 0, 0), Octets(202, 255, 255, 255)),
    (Octets(203, 0, 0, 0), Octets(203, 255, 255, 255)),
    (Octets(210, 0, 0, 0), Octets(210, 255, 255, 255)),
    (Octets(211, 0, 0, 0), Octets(211, 255, 255, 255)),
    (Octets(218, 0, 0, 0), Octets(218, 255, 255, 255)),
    (Octets(219, 0, 0, 0), Octets(219, 255, 255, 255)),
    (Octets(220, 0, 0, 0), Octets(220, 255, 255, 255)),
    (Octets(221, 0, 0, 0), Octets(221, 255, 255, 255)),
    (Octets(222, 0, 0, 0), Octets(222, 255, 255, 255)),
    (Octets(223, 0, 0, 0), Octets(223, 255, 255, 255))
  ]

  /** Each range is non-empty and ends before the next one begins. */
  predicate Ordered(ranges: seq<(int, int)>) {
    (forall i :: 0 <= i < |ranges| ==> ranges[i].0 <= ranges[i].1)
    && (forall i :: 0 <= i < |ranges| - 1 ==> ranges[i].1 < ranges[i + 1].0)
  }

  /** Two ordered tables joined where the first ends before the second begins. */
  lemma OrderedAppend(a: seq<(int, int)>, b: seq<(int, int)>)
    requires Ordered(a) && Ordered(b)
    requires a != [] && b != [] && a[|a| - 1].1 < b[0].0
    ensures Ordered(a + b)
  {
    var ab := a + b;
    forall i | 0 <= i < |ab| - 1 ensures ab[i].1 < ab[i + 1].0 {
      if i + 1 < |a| {
        assert ab[i] == a[i] && ab[i + 1] == a[i + 1];
      } else if i + 1 == |a| {
        assert ab[i] == a[|a| - 1] && ab[i + 1] == b[0];
      } else {
        assert ab[i] == b[i - |a|] && ab[i + 1] == b[i + 1 - |a|];
      }
    }
  }

  /** A literal twelve-range block in order, checked range by range. */
  lemma OrderedTwelve(block: seq<(int, int)>)
    requires |block| == 12
    requires forall i :: 0 <= i < 12 ==> block[i].0 <= block[i].1
    requires block[0].1 < block[1].0 && block[1].1 < block[2].0 && block[2].1 < block[3].0
    requires block[3].1 < block[4].0 && block[4].1 < block[5].0 && block[5].1 < block[6].0
    requires block[6].1 < block[7].0 && block[7].1 < block[8].0 && block[8].1 < block[9].0
    requires block[9].1 < block[10].0 && block[10].1 < block[11].0
    ensures Ordered(block)
  {
  }

  lemma Block0Ordered()
    ensures Ordered(ChinaBlock0)
  {
    OrderedTwelve(ChinaBlock0);
  }

  lemma Block1Ordered()
    ensures Ordered(ChinaBlock1)
  {
    OrderedTwelve(ChinaBlock1);
  }

  lemma Block2Ordered()
    ensures Ordered(ChinaBlock2)
  {
    OrderedTwelve(ChinaBlock2);
  }

  lemma Block3Ordered()
    ensures Ordered(ChinaBlock3)
  {
    OrderedTwelve(ChinaBlock3);
  }

  lemma Block4Ordered()
    ensures Ordered(ChinaBlock4)
  {
    OrderedTwelve(ChinaBlock4);
  }

  lemma Block5Ordered()
    ensures Ordered(ChinaBlock5)
  {
    OrderedTwelve(ChinaBlock5);
  }

  /** The first three blocks, joined, are in order. */
  lemma FirstHalfOrdered()
    ensures Ordered(ChinaBlock0 + ChinaBlock1 + ChinaBlock2)
  {
    Block0Ordered();
    Block1Ordered();
    Block2Ordered();
    OrderedAppend(ChinaBlock0, ChinaBlock1);
    var ab := ChinaBlock0 + ChinaBlock1;
    assert ab[|ab| - 1] == ChinaBlock1[11];
    OrderedAppend(ab, ChinaBlock2);
  }

  /** The last three blocks, joined, are in order. */
  lemma SecondHalfOrdered()
    ensures Ordered(ChinaBlock3 + ChinaBlock4 + ChinaBlock5)
  {
    Block3Ordered();
    Block4Ordered();
    Block5Ordered();
    OrderedAppend(ChinaBlock3, ChinaBlock4);
    var de := ChinaBlock3 + ChinaBlock4;
    assert de[|de| - 1] == ChinaBlock4[11];
    OrderedAppend(de, ChinaBlock5);
  }

  /** Every range of the table is non-empty, and each ends before the next begins. */
  lemma ChinaRangesOrdered()
    ensures Ordered(ChinaRanges)
    ensures |ChinaRanges| == 72
  {
    var first := ChinaBlock0 + ChinaBlock1 + ChinaBlock2;
    var second := ChinaBlock3 + ChinaBlock4 + ChinaBlock5;
    FirstHalfOrdered();
    SecondHalfOrdered();
    assert first[|first| - 1] == ChinaBlock2[11];
    assert second[0] == ChinaBlock3[0];
    OrderedAppend(first, second);
    assert ChinaRanges == first + second;
  }

  predicate Covers(range: (int, int), x: int) {
    range.0 <= x <= range.1
  }

  /** The scan of `_check_china_ip_range`: does some range contain `x`? */
  function InRanges(x: int, ranges: seq<(int, int)>): (found: bool)
    ensures found <==> exists i :: 0 <= i < |ranges| && Covers(ranges[i], x)
  {
    if ranges == [] then false
    else if Covers(ranges[0], x) then true
    else
      var found := InRanges(x, ranges[1..]);
      assert forall i :: 1 <= i < |ranges| ==> ranges[i] == ranges[1..][i - 1];
      found
  }

  /** In an ordered, disjoint table an address lies in at most one range. */
  lemma {:induction false} AtMostOneRange(ranges: seq<(int, int)>, x: int, i: nat, j: nat)
    requires Ordered(ranges)
    requires i < j < |ranges|
    ensures !(Covers(ranges[i], x) && Covers(ranges[j], x))
    decreases j - i
  {
    if j > i + 1 {
      AtMostOneRange(ranges, ranges[i + 1].0, i + 1, j);
      AtMostOneRange(ranges, x, i + 1, j);
      EndsBeforeLater(ranges, i, j);
    }
  }

  /** In an ordered, disjoint table every range ends before any later one starts. */
  lemma {:induction false} EndsBeforeLater(ranges: seq<(int, int)>, i: nat, j: nat)
    requires Ordered(ranges)
    requires i < j < |ranges|
    ensures ranges[i].1 < ranges[j].0
    decreases j - i
  {
    if j > i + 1 {
      EndsBeforeLater(ranges, i + 1, j);
    }
  }

  /** No address lies in two ranges of the table. */
  lemma ChinaRangeUnique(x: int, i: nat, j: nat)
    requires i < |ChinaRanges| && j < |ChinaRanges|
    requires Covers(ChinaRanges[i], x) && Covers(ChinaRanges[j], x)
    ensures i == j
  {
    ChinaRangesOrdered();
    if i < j {
      AtMostOneRange(ChinaRanges, x, i, j);
    } else if j < i {
      AtMostOneRange(ChinaRanges, x, j, i);
    }
  }

  /**
   * `_check_china_ip_range`: `CN` exactly when the address converts to a
   * non-zero integer lying in some range of the table.
   */
  function CheckChinaIpRange(ip: string): (country: Option<string>)
    ensures country == Some("CN") || country == None
    ensures country == Some("CN")
            <==> IpToInt(ip) != 0 && exists i :: 0 <= i < |ChinaRanges| && Covers(ChinaRanges[i], IpToInt(ip))
  {
    var n := IpToInt(ip);
    if n == 0 then None
    else if InRanges(n, ChinaRanges) then Some("CN")
    else None
  }

  /** The GeoIP database: absent, or a lookup that yields an ISO code or fails. */
  datatype GeoIp = NoDatabase | Database(lookup: string -> Option<string>)

  /**
   * `get_country_code`: local addresses first, then the database when there is
   * one, else the fallback table.
   */
  function GetCountryCode(ip: string, geo: GeoIp): (country: Option<string>)
    ensures IsLocal(ip) ==> country == Some("LOCAL")
    ensures !IsLocal(ip) && geo.NoDatabase? ==> country == CheckChinaIpRange(ip)
  {
    if IsLocal(ip) then Some("LOCAL")
    else match geo
      case NoDatabase => CheckChinaIpRange(ip)
      case Database(lookup) => lookup(ip)
  }

  /** `is_blocked_country`: blocked exactly when the country is `CN`. */
  function IsBlockedCountry(ip: string, geo: GeoIp): (result: (bool, Option<string>))
    ensures result.1 == GetCountryCode(ip, geo)
    ensures result.0 <==> result.1 == Some("CN")
  {
    var country := GetCountryCode(ip, geo);
    (country == Some("CN"), country)
  }

  /** Local addresses are never region-blocked, whatever the database says. */
  lemma LocalNeverBlocked(ip: string, geo: GeoIp)
    requires IsLocal(ip)
    ensures !IsBlockedCountry(ip, geo).0
  {
  }

  /** Without a database, an address is blocked exactly when the table covers it. */
  lemma FallbackBlocksTable(ip: string)
    requires !IsLocal(ip)
    ensures IsBlockedCountry(ip, NoDatabase).0
            <==> IpToInt(ip) != 0 && exists i :: 0 <= i < |ChinaRanges| && Covers(ChinaRanges[i], IpToInt(ip))
  {
  }
}
