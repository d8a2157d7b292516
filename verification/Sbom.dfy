/** Identifiers and vulnerability grouping of the CycloneDX export. */
module Sbom {
  import opened Text
  import opened JsonValue
  import opened Ordering
  import opened CveRecords
  import opened Components

  // ---- Percent-encoding (section 2.1 of RFC 3986) ----

  type Byte = n: nat | n < 256

  /** The UTF-8 encoding of one character. */
  function Utf8(c: char): (r: seq<Byte>)
    ensures 1 <= |r| <= 4
  {
    var n := c as int;
    if n < 0x80 then [n]
    else if n < 0x800 then [0xC0 + n / 64, 0x80 + n % 64]
    else if n < 0x10000 then [0xE0 + n / 4096, 0x80 + n / 64 % 64, 0x80 + n % 64]
    else [0xF0 + n / 262144, 0x80 + n / 4096 % 64, 0x80 + n / 64 % 64, 0x80 + n % 64]
  }

  function Encode(s: string): seq<Byte> {
    if s == "" then [] else Utf8(s[0]) + Encode(s[1..])
  }

  predicate Unreserved(c: char) {
    'A' <= c <= 'Z' || 'a' <= c <= 'z' || '0' <= c <= '9' || c == '_' || c == '.' || c == '-' || c == '~'
  }

  function HexDigit(n: nat): char
    requires n < 16
  {
    "0123456789ABCDEF"[n]
  }

  function QuoteByte(b: Byte): string {
    if Unreserved(b as char) then [b as char] else ['%', HexDigit(b / 16), HexDigit(b % 16)]
  }

  function QuoteBytes(bytes: seq<Byte>): string {
    if bytes == [] then "" else QuoteByte(bytes[0]) + QuoteBytes(bytes[1..])
  }

  /** `urllib.parse.quote(s, safe="")`. */
  function Quote(s: string): string {
    QuoteBytes(Encode(s))
  }

  lemma HexDigitInjective(a: nat, b: nat)
    requires a < 16 && b < 16 && HexDigit(a) == HexDigit(b)
    ensures a == b
  {
  }

  /** The encoding of a byte can be cut off the front in only one way. */
  lemma QuoteBytePrefixFree(a: Byte, s: string, b: Byte, t: string)
    requires QuoteByte(a) + s == QuoteByte(b) + t
    ensures a == b && s == t
  {
    var left, right := QuoteByte(a) + s, QuoteByte(b) + t;
    assert left[0] == QuoteByte(a)[0] && right[0] == QuoteByte(b)[0];
    if !Unreserved(a as char) {
      assert left[1] == HexDigit(a / 16) && left[2] == HexDigit(a % 16);
      assert right[1] == HexDigit(b / 16) && right[2] == HexDigit(b % 16);
      HexDigitInjective(a / 16, b / 16);
      HexDigitInjective(a % 16, b % 16);
    }
    assert s == left[|QuoteByte(a)|..] && t == right[|QuoteByte(b)|..];
  }

  lemma {:induction false} QuoteBytesInjective(a: seq<Byte>, b: seq<Byte>)
    requires QuoteBytes(a) == QuoteBytes(b)
    ensures a == b
  {
    hide QuoteByte;
    if a != [] && b != [] {
      QuoteBytePrefixFree(a[0], QuoteBytes(a[1..]), b[0], QuoteBytes(b[1..]));
      QuoteBytesInjective(a[1..], b[1..]);
      assert a == [a[0]] + a[1..] && b == [b[0]] + b[1..];
    } else {
      QuotedNonempty(a);
      QuotedNonempty(b);
    }
  }

  lemma QuotedNonempty(bytes: seq<Byte>)
    ensures bytes != [] ==> QuoteBytes(bytes) != ""
  {
  }

  /** How many bytes follow from the first one. */
  function Width(first: Byte): nat {
    if first < 0xC0 then 1 else if first < 0xE0 then 2 else if first < 0xF0 then 3 else 4
  }

  lemma Utf8Width(c: char)
    ensures |Utf8(c)| == Width(Utf8(c)[0])
  {
  }

  /** The code point a well-formed encoding stands for. */
  function CodePoint(r: seq<Byte>): int
    requires 1 <= |r| <= 4
  {
    var first := r[0] as int;
    if |r| == 1 then first
    else if |r| == 2 then 64 * (first - 0xC0) + (r[1] as int - 0x80)
    else if |r| == 3 then 64 * (64 * (first - 0xE0) + (r[1] as int - 0x80)) + (r[2] as int - 0x80)
    else 64 * (64 * (64 * (first - 0xF0) + (r[1] as int - 0x80)) + (r[2] as int - 0x80)) + (r[3] as int - 0x80)
  }

  lemma Utf8RoundTrip(c: char)
    ensures CodePoint(Utf8(c)) == c as int
  {
    var n := c as int;
    assert n == 64 * (n / 64) + n % 64;
    assert n / 64 == 64 * (n / 4096) + n / 64 % 64;
    assert n / 4096 == 64 * (n / 262144) + n / 4096 % 64;
  }

  lemma {:induction false} EncodeInjective(s: string, t: string)
    requires Encode(s) == Encode(t)
    ensures s == t
  {
    hide Utf8;
    if s != "" && t != "" {
      var u, v := Utf8(s[0]), Utf8(t[0]);
      var left := Encode(s);
      Utf8Width(s[0]);
      Utf8Width(t[0]);
      assert left[0] == u[0] && left[0] == v[0];
      assert left[..|u|] == u && left[..|v|] == v;
      assert left[|u|..] == Encode(s[1..]) && left[|v|..] == Encode(t[1..]);
      Utf8RoundTrip(s[0]);
      Utf8RoundTrip(t[0]);
      EncodeInjective(s[1..], t[1..]);
      assert s == [s[0]] + s[1..] && t == [t[0]] + t[1..];
    }
  }

  /** Percent-encoding loses nothing. */
  lemma QuoteInjective(s: string, t: string)
    requires Quote(s) == Quote(t)
    ensures s == t
  {
    QuoteBytesInjective(Encode(s), Encode(t));
    EncodeInjective(s, t);
  }

  lemma {:induction false} QuotedHasNoAt(bytes: seq<Byte>)
    ensures '@' !in QuoteBytes(bytes)
  {
    if bytes != [] {
      QuotedHasNoAt(bytes[1..]);
      QuotedByteHasNoAt(bytes[0]);
    }
  }

  lemma QuotedByteHasNoAt(b: Byte)
    ensures '@' !in QuoteByte(b)
  {
    HexIsNotAt(b / 16);
    HexIsNotAt(b % 16);
  }

  lemma HexIsNotAt(n: nat)
    requires n < 16
    ensures HexDigit(n) != '@'
  {
  }

  // ---- Reading a quoted text back ----

  /** The number a hexadecimal digit stands for. */
  function HexValue(c: char): nat {
    if '0' <= c <= '9' then (c - '0') as nat
    else if 'A' <= c <= 'F' then (c - 'A') as nat + 10
    else 0
  }

  lemma HexRoundTrip(n: nat)
    requires n < 16
    ensures HexValue(HexDigit(n)) == n && HexDigit(n) in "0123456789ABCDEF"
  {
  }

  /** The bytes a percent-encoded text stands for (section 2.1 of RFC 3986). */
  function Unquote(s: string): seq<int>
    decreases |s|
  {
    if s == "" then []
    else if s[0] == '%' && |s| >= 3 then [16 * HexValue(s[1]) + HexValue(s[2])] + Unquote(s[3..])
    else [s[0] as int] + Unquote(s[1..])
  }

  lemma UnquotePlain(c: char, rest: string)
    requires c != '%'
    ensures Unquote([c] + rest) == [c as int] + Unquote(rest)
  {
    hide HexValue;
    assert ([c] + rest)[1..] == rest;
  }

  lemma UnquoteEscape(h: char, l: char, rest: string)
    ensures Unquote(['%', h, l] + rest) == [16 * HexValue(h) + HexValue(l)] + Unquote(rest)
  {
    hide HexValue;
    assert (['%', h, l] + rest)[3..] == rest;
  }

  lemma UnquoteByte(b: Byte, rest: string)
    ensures Unquote(QuoteByte(b) + rest) == [b as int] + Unquote(rest)
  {
    hide Unquote, HexValue, HexDigit, Unreserved;
    PlainIsNotPercent(b);
    if Unreserved(b as char) {
      UnquotePlain(b as char, rest);
    } else {
      HexRoundTrip(b / 16);
      HexRoundTrip(b % 16);
      UnquoteEscape(HexDigit(b / 16), HexDigit(b % 16), rest);
    }
  }

  lemma PlainIsNotPercent(b: Byte)
    ensures Unreserved(b as char) ==> b as char != '%'
  {
  }

  function Numbers(bytes: seq<Byte>): seq<int> {
    seq(|bytes|, i requires 0 <= i < |bytes| => bytes[i] as int)
  }

  lemma {:induction false} UnquoteBytes(bytes: seq<Byte>)
    ensures Unquote(QuoteBytes(bytes)) == Numbers(bytes)
  {
    hide QuoteByte;
    if bytes != [] {
      UnquoteBytes(bytes[1..]);
      UnquoteByte(bytes[0], QuoteBytes(bytes[1..]));
      assert Numbers(bytes) == [bytes[0] as int] + Numbers(bytes[1..]);
    }
  }

  /** Decoding a quoted text gives the bytes of its UTF-8 encoding; a text of letters, digits, `_`, `.`, `-` and `~` is
      quoted as it is. */
  lemma QuoteRoundTrip(s: string)
    ensures Unquote(Quote(s)) == Numbers(Encode(s))
    ensures (forall c :: c in s ==> IsPlain(c)) ==> Quote(s) == s
  {
    UnquoteBytes(Encode(s));
    if forall c :: c in s ==> IsPlain(c) {
      PlainIsItself(s);
    }
  }

  predicate IsPlain(c: char) {
    var n := c as int;
    48 <= n <= 57 || 65 <= n <= 90 || 97 <= n <= 122 || n in {45, 46, 95, 126}
  }

  lemma {:induction false} PlainIsItself(s: string)
    requires forall c :: c in s ==> IsPlain(c)
    ensures Quote(s) == s
  {
    if s != "" {
      assert s[0] in s;
      PlainIsItself(s[1..]);
      assert Utf8(s[0]) == [s[0] as int];
      assert Encode(s)[1..] == Encode(s[1..]);
      assert s == [s[0]] + s[1..];
    }
  }

  // ---- Identifiers ----

  function Generated(c: Component): string {
    "pkg:generic/" + Quote(Strip(c.name)) + "@" + Quote(Strip(c.version))
  }

  function PurlOf(c: Component): string {
    if c.Purl() != "" then c.Purl() else Generated(c)
  }

  lemma CutAtSign(a: string, s: string, b: string, t: string)
    requires '@' !in a && '@' !in b && a + "@" + s == b + "@" + t
    ensures a == b && s == t
  {
    var whole := a + "@" + s;
    assert whole[|a|] == '@' && whole[|b|] == '@';
    assert forall i :: 0 <= i < |a| ==> whole[i] == a[i] && a[i] in a;
    assert forall i :: 0 <= i < |b| ==> whole[i] == b[i] && b[i] in b;
    assert |a| == |b|;
    assert whole[..|a|] == a && whole[..|b|] == b && whole[|a| + 1..] == s && whole[|b| + 1..] == t;
  }

  /** A component keeps the identifier it brings; one that brings none, or a blank one, gets its quoted name and version. */
  lemma PurlExactly(c: Component, purl: string)
    requires if "purl" in c.extra then c.extra["purl"] == Str(purl) else purl == ""
    ensures PurlOf(c) == if Strip(purl) != "" then Strip(purl)
                         else "pkg:generic/" + Quote(Strip(c.name)) + "@" + Quote(Strip(c.version))
  {
    hide Strip, Quote;
  }

  /** Components without a supplied purl share an identifier exactly when their trimmed names and versions agree. */
  lemma GeneratedPurlIdentifies(c: Component, d: Component)
    requires c.Purl() == "" && d.Purl() == ""
    ensures PurlOf(c) == PurlOf(d) <==> Strip(c.name) == Strip(d.name) && Strip(c.version) == Strip(d.version)
  {
    hide Strip, Quote;
    if PurlOf(c) == PurlOf(d) {
      var left, right := Generated(c), Generated(d);
      var scheme := "pkg:generic/";
      var cn, dn, cv, dv := Quote(Strip(c.name)), Quote(Strip(d.name)), Quote(Strip(c.version)), Quote(Strip(d.version));
      assert left[|scheme|..] == cn + "@" + cv && right[|scheme|..] == dn + "@" + dv;
      QuoteHasNoAt(Strip(c.name));
      QuoteHasNoAt(Strip(d.name));
      CutAtSign(cn, cv, dn, dv);
      QuoteInjective(Strip(c.name), Strip(d.name));
      QuoteInjective(Strip(c.version), Strip(d.version));
    }
  }

  lemma QuoteHasNoAt(s: string)
    ensures '@' !in Quote(s)
  {
    QuotedHasNoAt(Encode(s));
  }

  // ---- Grouping by CVE ----

  type Pair = (Component, CveRecord)

  /** One vulnerability of the document: the record shown and the identifiers it affects. */
  datatype Vulnerability = Vulnerability(record: CveRecord, refs: seq<string>)

  function CveOf(p: Pair): string {
    NormalCve(p.1.cve)
  }

  /** The pairs of one CVE, in order. */
  function PairsOf(pairs: seq<Pair>, cve: string): (r: seq<Pair>)
    ensures forall p :: p in r <==> p in pairs && CveOf(p) == cve
  {
    if pairs == [] then []
    else
      var last := pairs[|pairs| - 1];
      PairsOf(pairs[..|pairs| - 1], cve) + if CveOf(last) == cve then [last] else []
  }

  function RefsOf(pairs: seq<Pair>, cve: string): set<string> {
    set p | p in pairs && CveOf(p) == cve :: PurlOf(p.0)
  }

  function Cves(pairs: seq<Pair>): set<string> {
    set p | p in pairs && CveOf(p) != "" :: CveOf(p)
  }

  function VulnerabilityFor(pairs: seq<Pair>, cve: string): Vulnerability
    requires cve in Cves(pairs)
  {
    assert exists p :: p in pairs && CveOf(p) == cve;
    assert PairsOf(pairs, cve) != [];
    Vulnerability(PairsOf(pairs, cve)[0].1, SortedTexts(RefsOf(pairs, cve)))
  }

  /** The `vulnerabilities` array: one entry per normalised CVE, in order; its first record, its refs sorted. */
  function Vulnerabilities(pairs: seq<Pair>): seq<Vulnerability> {
    var cves := SortedTexts(Cves(pairs));
    seq(|cves|, i requires 0 <= i < |cves| => assert cves[i] in cves; VulnerabilityFor(pairs, cves[i]))
  }

  /** What the grouping loop holds under one CVE: the first record, and each ref once. */
  ghost predicate GroupIs(pairs: seq<Pair>, cve: string, group: (CveRecord, seq<string>)) {
    && PairsOf(pairs, cve) != [] && PairsOf(pairs, cve)[0].1 == group.0
    && (forall ref :: ref in group.1 <==> ref in RefsOf(pairs, cve))
    && (forall i, j :: 0 <= i < j < |group.1| ==> group.1[i] != group.1[j])
  }

  ghost predicate Grouped(pairs: seq<Pair>, grouped: map<string, (CveRecord, seq<string>)>) {
    grouped.Keys == Cves(pairs) && forall cve :: cve in grouped ==> GroupIs(pairs, cve, grouped[cve])
  }

  lemma GroupedNothing()
    ensures Grouped([], map[])
  {
  }

  lemma PairsNext(pairs: seq<Pair>, p: Pair, cve: string)
    ensures PairsOf(pairs + [p], cve) == PairsOf(pairs, cve) + if CveOf(p) == cve then [p] else []
    ensures RefsOf(pairs + [p], cve) == RefsOf(pairs, cve) + if CveOf(p) == cve then {PurlOf(p.0)} else {}
    ensures Cves(pairs + [p]) == Cves(pairs) + if CveOf(p) == "" then {} else {CveOf(p)}
  {
    hide CveOf, PurlOf;
    var next := pairs + [p];
    assert next[..|pairs|] == pairs;
    assert p in next && forall q :: q in next <==> q in pairs || q == p;
  }

  lemma NoPairs(pairs: seq<Pair>, cve: string)
    requires cve !in Cves(pairs) && cve != ""
    ensures PairsOf(pairs, cve) == [] && RefsOf(pairs, cve) == {}
  {
    hide CveOf, PurlOf;
    assert forall p :: p in pairs && CveOf(p) != "" ==> CveOf(p) in Cves(pairs);
    NoPairsOf(pairs, cve);
  }

  lemma {:induction false} NoPairsOf(pairs: seq<Pair>, cve: string)
    requires forall p :: p in pairs ==> CveOf(p) != cve
    ensures PairsOf(pairs, cve) == []
  {
    hide CveOf;
    if pairs != [] {
      assert pairs[|pairs| - 1] in pairs;
      NoPairsOf(pairs[..|pairs| - 1], cve);
    }
  }

  /** The group of `cve` after one more pair. */
  function GroupWith(grouped: map<string, (CveRecord, seq<string>)>, p: Pair): (CveRecord, seq<string>) {
    var group := if CveOf(p) in grouped then grouped[CveOf(p)] else (p.1, []);
    if PurlOf(p.0) in group.1 then group else (group.0, group.1 + [PurlOf(p.0)])
  }

  lemma NoBlankCve(pairs: seq<Pair>)
    ensures "" !in Cves(pairs)
  {
  }

  lemma GroupedNext(pairs: seq<Pair>, grouped: map<string, (CveRecord, seq<string>)>, p: Pair)
    requires Grouped(pairs, grouped)
    ensures Grouped(pairs + [p], if CveOf(p) == "" then grouped else grouped[CveOf(p) := GroupWith(grouped, p)])
  {
    hide CveOf, PurlOf, PairsOf, RefsOf, Cves, GroupIs;
    NoBlankCve(pairs);
    PairsNext(pairs, p, "");
    var next := if CveOf(p) == "" then grouped else grouped[CveOf(p) := GroupWith(grouped, p)];
    forall cve | cve in next ensures GroupIs(pairs + [p], cve, next[cve]) {
      if cve in grouped {
        GroupNext(pairs, p, cve, grouped[cve]);
      } else {
        NoPairs(pairs, cve);
        GroupNew(pairs, p);
        var none: seq<string> := [];
        assert none + [PurlOf(p.0)] == [PurlOf(p.0)];
        assert next[cve] == (p.1, [PurlOf(p.0)]);
      }
    }
  }

  lemma GroupNext(pairs: seq<Pair>, p: Pair, cve: string, group: (CveRecord, seq<string>))
    requires GroupIs(pairs, cve, group)
    ensures GroupIs(pairs + [p], cve,
                    if CveOf(p) != cve || PurlOf(p.0) in group.1 then group else (group.0, group.1 + [PurlOf(p.0)]))
  {
    hide CveOf, PurlOf, PairsOf, RefsOf;
    PairsNext(pairs, p, cve);
  }

  lemma GroupNew(pairs: seq<Pair>, p: Pair)
    requires PairsOf(pairs, CveOf(p)) == [] && RefsOf(pairs, CveOf(p)) == {}
    ensures GroupIs(pairs + [p], CveOf(p), (p.1, [PurlOf(p.0)]))
  {
    hide CveOf, PurlOf, PairsOf, RefsOf;
    PairsNext(pairs, p, CveOf(p));
  }

  function Shown(group: (CveRecord, seq<string>)): Vulnerability {
    Vulnerability(group.0, SortedTexts(set ref | ref in group.1))
  }

  /** The loop of `_vulnerabilities`, and the sorted list built from its groups. */
  method GroupVulnerabilities(pairs: seq<Pair>) returns (entries: seq<Vulnerability>)
    ensures entries == Vulnerabilities(pairs)
  {
    hide Grouped, CveOf, PurlOf, Vulnerabilities;
    var grouped: map<string, (CveRecord, seq<string>)> := map[];
    GroupedNothing();
    for i := 0 to |pairs|
      invariant Grouped(pairs[..i], grouped)
    {
      var (component, record) := pairs[i];
      TakeNext(pairs, i);
      GroupedNext(pairs[..i], grouped, pairs[i]);
      var cve := CveOf(pairs[i]);
      if cve == "" {
        continue;
      }
      var ref := PurlOf(component);
      var group := if cve in grouped then grouped[cve] else (record, []);
      if ref !in group.1 {
        group := (group.0, group.1 + [ref]);
      }
      grouped := grouped[cve := group];
    }
    assert pairs[..|pairs|] == pairs;
    var cves := SortedTexts(grouped.Keys);
    entries := [];
    for i := 0 to |cves|
      invariant |entries| == i
      invariant forall j :: 0 <= j < i ==> cves[j] in grouped && entries[j] == Shown(grouped[cves[j]])
    {
      assert cves[i] in cves;
      entries := entries + [Shown(grouped[cves[i]])];
    }
    GroupsListed(pairs, grouped, entries);
  }

  lemma GroupsListed(pairs: seq<Pair>, grouped: map<string, (CveRecord, seq<string>)>, entries: seq<Vulnerability>)
    requires Grouped(pairs, grouped)
    requires var cves := SortedTexts(grouped.Keys);
             |entries| == |cves| && forall j :: 0 <= j < |cves| ==> cves[j] in grouped && entries[j] == Shown(grouped[cves[j]])
    ensures entries == Vulnerabilities(pairs)
  {
    hide CveOf, PurlOf, PairsOf, RefsOf, Shown, GroupIs;
    var cves := SortedTexts(grouped.Keys);
    forall j | 0 <= j < |cves| ensures entries[j] == Vulnerabilities(pairs)[j] {
      GroupShown(pairs, cves[j], grouped[cves[j]]);
    }
  }

  lemma GroupShown(pairs: seq<Pair>, cve: string, group: (CveRecord, seq<string>))
    requires cve in Cves(pairs) && GroupIs(pairs, cve, group)
    ensures Shown(group) == VulnerabilityFor(pairs, cve)
  {
    hide CveOf, PurlOf, PairsOf, RefsOf;
    assert (set ref | ref in group.1) == RefsOf(pairs, cve);
  }

  lemma {:induction false} FirstPair(pairs: seq<Pair>, cve: string) returns (k: nat)
    requires PairsOf(pairs, cve) != []
    ensures k < |pairs| && CveOf(pairs[k]) == cve && PairsOf(pairs, cve)[0] == pairs[k]
    ensures forall j :: 0 <= j < k ==> CveOf(pairs[j]) != cve
  {
    hide CveOf;
    var n := |pairs| - 1;
    if PairsOf(pairs[..n], cve) != [] {
      k := FirstPair(pairs[..n], cve);
    } else {
      k := n;
      assert forall j :: 0 <= j < n ==> pairs[j] in pairs[..n];
      assert forall p :: p in pairs[..n] && CveOf(p) == cve ==> p in PairsOf(pairs[..n], cve);
    }
  }

  /** Each normalised CVE gets one entry, in strict CVE order: the record of its first pair, and the distinct
      identifiers it is paired with, sorted. */
  lemma EntriesExact(pairs: seq<Pair>, i: nat) returns (k: nat)
    requires i < |Vulnerabilities(pairs)|
    ensures var cves := SortedTexts(Cves(pairs)); var entry := Vulnerabilities(pairs)[i];
            && |cves| == |Vulnerabilities(pairs)|
            && k < |pairs| && NormalCve(pairs[k].1.cve) == cves[i] && entry.record == pairs[k].1
            && (forall j :: 0 <= j < k ==> NormalCve(pairs[j].1.cve) != cves[i])
            && Increasing(StrLe, entry.refs)
            && forall ref :: ref in entry.refs <==> exists p :: p in pairs && NormalCve(p.1.cve) == cves[i] && PurlOf(p.0) == ref
  {
    hide PurlOf, NormalCve;
    var cves := SortedTexts(Cves(pairs));
    assert cves[i] in cves;
    assert Vulnerabilities(pairs)[i] == VulnerabilityFor(pairs, cves[i]);
    k := FirstPair(pairs, cves[i]);
  }

  /** The CVEs listed are exactly the nonblank normalised ones, each once. */
  lemma CvesExact(pairs: seq<Pair>, cve: string)
    ensures cve in SortedTexts(Cves(pairs)) <==> cve != "" && exists p :: p in pairs && NormalCve(p.1.cve) == cve
  {
    hide NormalCve;
  }

  /** Permuting the pairs changes no CVE and no refs. */
  lemma OrderOfPairsIsIrrelevant(pairs: seq<Pair>, shuffled: seq<Pair>)
    requires multiset(pairs) == multiset(shuffled)
    ensures var a, b := Vulnerabilities(pairs), Vulnerabilities(shuffled);
            |a| == |b| && forall i :: 0 <= i < |a| ==> a[i].refs == b[i].refs
  {
    hide CveOf, PurlOf;
    assert forall p :: p in pairs <==> p in multiset(pairs);
    assert forall p :: p in shuffled <==> p in multiset(shuffled);
    assert Cves(pairs) == Cves(shuffled);
    forall cve ensures RefsOf(pairs, cve) == RefsOf(shuffled, cve) {
    }
  }
}
