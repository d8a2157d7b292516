/** Version tokenising, the version order, and NVD version ranges. */
module Version {
  import opened Text
  import opened Ordering
  import opened Options

  /** A run of digits, by value, or a run of letters; digits sort before letters. */
  datatype Token = Num(n: nat) | Word(w: string)

  datatype Kind = Digit | Letter | Other

  function KindOf(c: char): Kind {
    if IsDigit(c) then Digit else if IsLower(c) then Letter else Other
  }

  /** The length of the longest prefix of `s` whose characters all have kind `k`. */
  function Run(s: string, k: Kind): (n: nat)
    ensures n <= |s| && (forall i :: 0 <= i < n ==> KindOf(s[i]) == k)
    ensures n < |s| ==> KindOf(s[n]) != k
  {
    if s != [] && KindOf(s[0]) == k then 1 + Run(s[1..], k) else 0
  }

  function ToToken(k: Kind, chunk: string): Token {
    if k == Digit then Num(Value(chunk)) else Word(chunk)
  }

  /** `re.findall(r"\d+|[a-z]+", s)`, each run turned into its token. */
  function Tokens(s: string): seq<Token>
    decreases |s|
  {
    if s == [] then []
    else
      var k := KindOf(s[0]);
      var n := Run(s, k);
      if k == Other then Tokens(s[1..]) else [ToToken(k, s[..n])] + Tokens(s[n..])
  }

  function VersionKey(version: string): seq<Token> {
    Tokens(Lower(Strip(version)))
  }

  predicate TokenLe(a: Token, b: Token) {
    match (a, b)
    case (Num(x), Num(y)) => x <= y
    case (Num(_), Word(_)) => true
    case (Word(_), Num(_)) => false
    case (Word(x), Word(y)) => StrLe(x, y)
  }

  predicate KeyLe(a: seq<Token>, b: seq<Token>) {
    Lex(TokenLe, a, b)
  }

  function Compare(left: string, right: string): int {
    var l := VersionKey(left);
    var r := VersionKey(right);
    if l == r then 0 else if KeyLe(l, r) then -1 else 1
  }

  // ---- The order on versions ----

  lemma TokenOrder()
    ensures TotalOrder(TokenLe)
  {
    StrOrder();
  }

  lemma KeyOrder()
    ensures TotalOrder(KeyLe)
  {
    TokenOrder();
    forall x: seq<Token>, y: seq<Token>, z: seq<Token>
      ensures KeyLe(x, x)
      ensures KeyLe(x, y) && KeyLe(y, x) ==> x == y
      ensures KeyLe(x, y) && KeyLe(y, z) ==> KeyLe(x, z)
      ensures KeyLe(x, y) || KeyLe(y, x)
    {
      LexReflexive(TokenLe, x);
      LexTotal(TokenLe, x, y);
      if KeyLe(x, y) && KeyLe(y, x) {
        LexAntisymmetric(TokenLe, x, y);
      }
      if KeyLe(x, y) && KeyLe(y, z) {
        LexTransitive(TokenLe, x, y, z);
      }
    }
  }

  /** `_compare` is the sign of a total preorder whose classes are the versions with equal keys. */
  lemma CompareIsPreorder(a: string, b: string, c: string)
    ensures Compare(a, b) == -Compare(b, a)
    ensures Compare(a, b) == 0 <==> VersionKey(a) == VersionKey(b)
    ensures Compare(a, b) <= 0 && Compare(b, c) <= 0 ==> Compare(a, c) <= 0
    ensures Compare(a, b) < 0 && Compare(b, c) <= 0 ==> Compare(a, c) < 0
    ensures Compare(a, b) <= 0 && Compare(b, c) < 0 ==> Compare(a, c) < 0
  {
    KeyOrder();
  }

  // ---- Tokenising is compositional ----

  lemma {:induction false} RunConcat(s: string, t: string, k: Kind)
    ensures Run(s + t, k) == if Run(s, k) == |s| then |s| + Run(t, k) else Run(s, k)
  {
    if s == [] {
      assert s + t == t;
    } else {
      assert (s + t)[1..] == s[1..] + t;
      RunConcat(s[1..], t, k);
    }
  }

  lemma TokensUnfold(s: string)
    requires s != ""
    ensures KindOf(s[0]) == Other ==> Tokens(s) == Tokens(s[1..])
    ensures KindOf(s[0]) != Other ==>
              var n := Run(s, KindOf(s[0])); n > 0 && Tokens(s) == [ToToken(KindOf(s[0]), s[..n])] + Tokens(s[n..])
  {
    hide ToToken, KindOf;
  }

  /** The first step of tokenising `s` is that of tokenising `s + t`, when no run crosses the border. */
  lemma TokensStep(s: string, t: string) returns (head: seq<Token>, n: nat)
    requires s != "" && (t == [] || KindOf(t[0]) == Other)
    ensures 0 < n <= |s| && Tokens(s) == head + Tokens(s[n..]) && Tokens(s + t) == head + Tokens(s[n..] + t)
  {
    hide ToToken, KindOf, Tokens;
    var k := KindOf(s[0]);
    TokensUnfold(s);
    TokensUnfold(s + t);
    if k == Other {
      head, n := [], 1;
    } else {
      n := Run(s, k);
      head := [ToToken(k, s[..n])];
      RunConcat(s, t, k);
      assert (s + t)[..n] == s[..n];
    }
    assert (s + t)[n..] == s[n..] + t;
  }

  /** Keys add up where a separator follows. */
  lemma {:induction false} TokensConcat(s: string, t: string)
    requires t == [] || KindOf(t[0]) == Other
    ensures Tokens(s + t) == Tokens(s) + Tokens(t)
    decreases |s|
  {
    hide KindOf, Tokens;
    if s == [] {
      assert s + t == t;
      TokensOfNothing();
    } else {
      var head, n := TokensStep(s, t);
      TokensConcat(s[n..], t);
    }
  }

  lemma TokensOfNothing()
    ensures Tokens("") == []
  {
  }

  lemma {:induction false} TokensOfOthers(s: string)
    requires forall c :: c in s ==> KindOf(c) == Other
    ensures Tokens(s) == []
  {
    if s != [] {
      TokensOfOthers(s[1..]);
    }
  }

  lemma {:induction false} TokensSkip(before: string, s: string)
    requires forall c :: c in before ==> KindOf(c) == Other
    ensures Tokens(before + s) == Tokens(s)
  {
    if before == [] {
      assert before + s == s;
    } else {
      assert (before + s)[1..] == before[1..] + s;
      TokensSkip(before[1..], s);
    }
  }

  /** Stripping never changes the key. */
  lemma KeyIgnoresBlanks(version: string)
    ensures VersionKey(version) == Tokens(Lower(version))
  {
    hide Strip, Tokens;
    var i, j := StripSlice(version);
    var low := Lower(version);
    LowerSlice(version, i, j);
    var inner := low[i..j];
    var tail := low[j..];
    assert inner == Lower(Strip(version));
    assert low == low[..i] + (inner + tail);
    BlanksAreOther(version[..i]);
    BlanksAreOther(version[j..]);
    assert low[..i] == Lower(version[..i]) && tail == Lower(version[j..]);
    TokensSkip(low[..i], inner + tail);
    TokensConcat(inner, tail);
    TokensOfOthers(tail);
  }

  lemma BlanksAreOther(s: string)
    requires forall k :: 0 <= k < |s| ==> IsSpace(s[k])
    ensures forall c :: c in Lower(s) ==> KindOf(c) == Other
  {
    assert forall k :: 0 <= k < |s| ==> Lower(s)[k] == LowerChar(s[k]);
  }

  /** A separator between two strings gives the concatenation of their keys. */
  lemma KeyOfSeparated(a: string, separator: char, b: string)
    requires KindOf(LowerChar(separator)) == Other
    ensures VersionKey(a + [separator] + b) == VersionKey(a) + VersionKey(b)
  {
    hide Tokens, Strip;
    var sep := Lower([separator]);
    KeyIgnoresBlanks(a);
    KeyIgnoresBlanks(b);
    KeyIgnoresBlanks(a + [separator] + b);
    assert Lower(a + [separator] + b) == Lower(a) + (sep + Lower(b));
    TokensConcat(Lower(a), sep + Lower(b));
    TokensSkip(sep, Lower(b));
  }

  // ---- Appending text never lowers a version ----

  lemma {:induction false} ValueGrows(s: string, t: string)
    ensures Value(s) <= Value(s + t)
  {
    if t == [] {
      assert s + t == s;
    } else {
      var u := t[..|t| - 1];
      ValueGrows(s, u);
      assert (s + t)[..|s + t| - 1] == s + u;
    }
  }

  lemma PrefixIsLower(p: string, a: string)
    ensures StrLe(p, p + a)
  {
    LexCommonPrefix(CharLe, p, [], a);
    assert p + [] == p;
  }

  lemma TokenGrows(k: Kind, s: string, t: string)
    ensures TokenLe(ToToken(k, s), ToToken(k, s + t))
  {
    ValueGrows(s, t);
    PrefixIsLower(s, t);
  }

  lemma {:induction false} TokensGrow(s: string, t: string)
    ensures KeyLe(Tokens(s), Tokens(s + t))
    decreases |s|
  {
    if s != [] {
      var k := KindOf(s[0]);
      var n := Run(s, k);
      RunConcat(s, t, k);
      if k == Other {
        assert (s + t)[1..] == s[1..] + t;
        TokensGrow(s[1..], t);
      } else if n < |s| {
        assert (s + t)[..n] == s[..n] && (s + t)[n..] == s[n..] + t;
        TokensGrow(s[n..], t);
      } else {
        var m := Run(t, k);
        assert s[..n] == s && (s + t)[..n + m] == s + t[..m];
        TokenGrows(k, s, t[..m]);
        assert Tokens(s) == [ToToken(k, s)] by { assert s[n..] == []; }
      }
    }
  }

  /** `8.5` never sorts above `8.5p1`: appending any text gives an equal or later version. */
  lemma ExtensionIsNotLower(version: string, suffix: string)
    ensures Compare(version, version + suffix) <= 0
  {
    KeyIgnoresBlanks(version);
    KeyIgnoresBlanks(version + suffix);
    LowerConcat(version, suffix);
    TokensGrow(Lower(version), Lower(suffix));
  }

  // ---- Printing a key ----

  predicate ValidToken(t: Token) {
    t.Word? ==> t.w != [] && forall c :: c in t.w ==> IsLower(c)
  }

  function Print(t: Token): string {
    match t
    case Num(n) => Decimal(n)
    case Word(w) => w
  }

  function PrintKey(key: seq<Token>): string {
    if key == [] then "" else Print(key[0]) + "." + PrintKey(key[1..])
  }

  lemma TokensOfPrint(t: Token)
    requires ValidToken(t)
    ensures Tokens(Print(t)) == [t]
  {
    var s := Print(t);
    var k := if t.Num? then Digit else Letter;
    assert forall i :: 0 <= i < |s| ==> s[i] in s && KindOf(s[i]) == k;
    assert Run(s, k) == |s|;
    assert s[..|s|] == s && s[|s|..] == [];
  }

  lemma PrintIsLower(t: Token)
    requires ValidToken(t)
    ensures Lower(Print(t)) == Print(t)
  {
    var s := Print(t);
    assert forall i :: 0 <= i < |s| ==> s[i] in s;
  }

  /** Printing a key with dots and reading it back returns the key. */
  lemma {:induction false} KeyRoundTrip(key: seq<Token>)
    requires forall t :: t in key ==> ValidToken(t)
    ensures VersionKey(PrintKey(key)) == key
  {
    if key == [] {
      assert Lower(Strip("")) == "";
    } else {
      var head := Print(key[0]);
      KeyRoundTrip(key[1..]);
      assert PrintKey(key) == head + ['.'] + PrintKey(key[1..]);
      KeyOfSeparated(head, '.', PrintKey(key[1..]));
      KeyIgnoresBlanks(head);
      PrintIsLower(key[0]);
      TokensOfPrint(key[0]);
    }
  }

  lemma {:induction false} TokensAreValid(s: string)
    ensures forall t :: t in Tokens(s) ==> ValidToken(t)
    decreases |s|
  {
    if s != [] {
      var k := KindOf(s[0]);
      var n := Run(s, k);
      TokensAreValid(if k == Other then s[1..] else s[n..]);
    }
  }

  /** Every version is equivalent to the dotted print of its own key. */
  lemma PrintedKeyIsEquivalent(version: string)
    ensures Compare(version, PrintKey(VersionKey(version))) == 0
  {
    TokensAreValid(Lower(Strip(version)));
    KeyRoundTrip(VersionKey(version));
  }

  /** The first differing token decides, whatever follows: numbers by value, so `1.36.9` is below `1.36.10`;
      a number below any word; words by letter. */
  lemma FirstDifferenceDecides(common: seq<Token>, a: Token, b: Token, restA: seq<Token>, restB: seq<Token>)
    requires forall t :: t in common + [a] + restA || t in common + [b] + restB ==> ValidToken(t)
    requires match (a, b)
             case (Num(x), Num(y)) => x < y
             case (Num(_), Word(_)) => true
             case (Word(_), Num(_)) => false
             case (Word(x), Word(y)) => StrLe(x, y) && x != y
    ensures Compare(PrintKey(common + [a] + restA), PrintKey(common + [b] + restB)) < 0
  {
    hide PrintKey, ValidToken, VersionKey;
    var left, right := common + [a] + restA, common + [b] + restB;
    KeyRoundTrip(left);
    KeyRoundTrip(right);
    assert left[|common|] == a && right[|common|] == b;
    assert left == common + ([a] + restA) && right == common + ([b] + restB);
    LexCommonPrefix(TokenLe, common, [a] + restA, [b] + restB);
  }

  // ---- Ranges ----

  datatype VersionRange = VersionRange(
    startIncluding: Option<string>,
    startExcluding: Option<string>,
    endIncluding: Option<string>,
    endExcluding: Option<string>)
  {
    predicate IsBounded() {
      startIncluding.Some? || startExcluding.Some? || endIncluding.Some? || endExcluding.Some?
    }

    predicate Contains(version: string) {
      if !IsBounded() || Strip(version) == "" then false
      else if startIncluding.Some? && Compare(version, startIncluding.value) < 0 then false
      else if startExcluding.Some? && Compare(version, startExcluding.value) <= 0 then false
      else if endIncluding.Some? && Compare(version, endIncluding.value) > 0 then false
      else if endExcluding.Some? && Compare(version, endExcluding.value) >= 0 then false
      else true
    }
  }

  predicate MatchesVersion(cpeVersion: string, wanted: string, range: Option<VersionRange>) {
    var want := Lower(Strip(wanted));
    if want == "" then false
    else
      var stored := Lower(Strip(cpeVersion));
      if stored == "*" || stored == "-" || stored == "" then range.Some? && range.value.Contains(want)
      else Compare(stored, want) == 0 || (range.Some? && range.value.Contains(want))
  }

  /** Ranges are convex: nonblank versions between two members are members. */
  lemma RangeIsConvex(range: VersionRange, low: string, middle: string, high: string)
    requires range.Contains(low) && range.Contains(high)
    requires Compare(low, middle) <= 0 && Compare(middle, high) <= 0
    requires Strip(middle) != ""
    ensures range.Contains(middle)
  {
    KeyOrder();
  }

  /** A fix splits the versions: each nonblank one lies below it or from it on, never both; likewise for the
      last affected version and what comes after it. */
  lemma RangesSplit(bound: string, version: string)
    requires Strip(version) != ""
    ensures VersionRange(None, None, None, Some(bound)).Contains(version)
            <==> !VersionRange(Some(bound), None, None, None).Contains(version)
    ensures VersionRange(None, None, Some(bound), None).Contains(version)
            <==> !VersionRange(None, Some(bound), None, None).Contains(version)
    ensures Strip(bound) != "" ==>
              VersionRange(Some(bound), None, None, None).Contains(bound) && VersionRange(None, None, Some(bound), None).Contains(bound)
  {
    hide VersionKey;
    KeyOrder();
  }

  /** A range is the intersection of its bounds: adding a bound keeps exactly the versions the bound alone keeps. */
  lemma RangeIntersects(r: VersionRange, s: VersionRange, version: string)
    requires r.IsBounded() && s.IsBounded()
    requires r.startIncluding.None? || s.startIncluding.None?
    requires r.startExcluding.None? || s.startExcluding.None?
    requires r.endIncluding.None? || s.endIncluding.None?
    requires r.endExcluding.None? || s.endExcluding.None?
    ensures Joint(r, s).Contains(version) <==> r.Contains(version) && s.Contains(version)
  {
    hide Compare;
  }

  /** The bounds of both ranges. */
  function Joint(r: VersionRange, s: VersionRange): VersionRange {
    VersionRange(if r.startIncluding.Some? then r.startIncluding else s.startIncluding,
                 if r.startExcluding.Some? then r.startExcluding else s.startExcluding,
                 if r.endIncluding.Some? then r.endIncluding else s.endIncluding,
                 if r.endExcluding.Some? then r.endExcluding else s.endExcluding)
  }

  /** Membership depends on the version's key alone. */
  lemma ContainsByKey(range: VersionRange, a: string, b: string)
    requires Strip(a) != "" && Strip(b) != "" && VersionKey(a) == VersionKey(b)
    ensures range.Contains(a) == range.Contains(b)
  {
  }

  lemma KeyOfNormal(version: string)
    ensures VersionKey(Lower(Strip(version))) == VersionKey(version)
  {
    NormalTwice(version);
  }

  /** So does the whole match against a stored CPE entry. */
  lemma MatchesByKey(cpeVersion: string, a: string, b: string, range: Option<VersionRange>)
    requires Strip(a) != "" && Strip(b) != "" && VersionKey(a) == VersionKey(b)
    ensures MatchesVersion(cpeVersion, a, range) == MatchesVersion(cpeVersion, b, range)
  {
    KeyOfNormal(a);
    KeyOfNormal(b);
    NormalTwice(a);
    NormalTwice(b);
    TrimmedStrip(Normal(a));
    TrimmedStrip(Normal(b));
    if range.Some? {
      ContainsByKey(range.value, Normal(a), Normal(b));
    }
  }

  // ---- What covers a version ----

  /** A CPE version attribute that names no version. */
  predicate IsWild(field: string) {
    Strip(field) in {"*", "-", ""}
  }

  /** The version lies on the right side of every bound that is given. */
  ghost predicate KeepsBounds(range: VersionRange, version: string) {
    && (forall b :: range.startIncluding == Some(b) ==> Compare(b, version) <= 0)
    && (forall b :: range.startExcluding == Some(b) ==> Compare(b, version) < 0)
    && (forall b :: range.endIncluding == Some(b) ==> Compare(version, b) <= 0)
    && (forall b :: range.endExcluding == Some(b) ==> Compare(version, b) < 0)
  }

  lemma ContainsExactly(range: VersionRange, version: string)
    ensures range.Contains(version) <==> range.IsBounded() && Strip(version) != "" && KeepsBounds(range, version)
  {
    hide VersionKey;
    KeyOrder();
  }

  lemma WildIsCaseless(field: string)
    ensures IsWild(field) <==> Normal(field) == "*" || Normal(field) == "-" || Normal(field) == ""
  {
    var s := Strip(field);
    if |s| == 1 {
      assert s == [s[0]] && Normal(field) == [LowerChar(s[0])];
    }
  }

  /** A stored entry covers a version exactly when the version is not blank and either the entry names a version with
      the same key or some bound is given and every bound holds. */
  lemma MatchesExactly(field: string, version: string, range: Option<VersionRange>)
    ensures MatchesVersion(field, version, range) <==>
            && Strip(version) != ""
            && (|| (!IsWild(field) && VersionKey(field) == VersionKey(version))
                || (range.Some? && range.value.IsBounded() && KeepsBounds(range.value, version)))
  {
    hide VersionKey, KeepsBounds, IsWild;
    WildIsCaseless(field);
    NormalTwice(version);
    TrimmedStrip(Normal(version));
    KeyOfNormal(version);
    KeyOfNormal(field);
    if range.Some? && Strip(version) != "" {
      ContainsByKey(range.value, Normal(version), version);
      ContainsExactly(range.value, version);
    }
  }
}
