/** Python's string helpers on ASCII text: `strip`, `lower`, `upper`, substring tests. */
module Text {

  /** The ASCII characters that `str.strip` removes and `str.isspace` accepts. */
  predicate IsSpace(c: char) {
    '\t' <= c <= '\r' || '\U{1C}' <= c <= ' '
  }

  predicate IsDigit(c: char) {
    '0' <= c <= '9'
  }

  predicate IsLower(c: char) {
    'a' <= c <= 'z'
  }

  function LowerChar(c: char): char {
    if 'A' <= c <= 'Z' then c + ' ' else c
  }

  function UpperChar(c: char): char {
    if 'a' <= c <= 'z' then c - ' ' else c
  }

  function Lower(s: string): (r: string)
    ensures |r| == |s|
  {
    seq(|s|, i requires 0 <= i < |s| => LowerChar(s[i]))
  }

  function Upper(s: string): (r: string)
    ensures |r| == |s|
  {
    seq(|s|, i requires 0 <= i < |s| => UpperChar(s[i]))
  }

  /** How many blanks `s` starts with. */
  function Leading(s: string): (n: nat)
    ensures n <= |s| && (n < |s| ==> !IsSpace(s[n]))
    ensures forall k :: 0 <= k < n ==> IsSpace(s[k])
  {
    if s != [] && IsSpace(s[0]) then 1 + Leading(s[1..]) else 0
  }

  /** The length of `s` without the blanks it ends with. */
  function KeptLength(s: string): (n: nat)
    ensures n <= |s| && (n > 0 ==> !IsSpace(s[n - 1]))
    ensures forall k :: n <= k < |s| ==> IsSpace(s[k])
  {
    if s != [] && IsSpace(s[|s| - 1]) then KeptLength(s[..|s| - 1]) else |s|
  }

  function Strip(s: string): string {
    var t := s[Leading(s)..];
    t[..KeptLength(t)]
  }

  /** No blank at either end: exactly the strings that `strip` leaves alone. */
  predicate Trimmed(s: string) {
    s != [] ==> !IsSpace(s[0]) && !IsSpace(s[|s| - 1])
  }

  /** How a component name is normalised everywhere: `name.strip().lower()`. */
  function Normal(s: string): string {
    Lower(Strip(s))
  }

  /** `int(chunk)` for a run of digits. */
  function Value(digits: string): nat {
    if digits == [] then 0
    else
      var d := digits[|digits| - 1];
      10 * Value(digits[..|digits| - 1]) + if IsDigit(d) then (d - '0') as nat else 0
  }

  /** `str(n)`. */
  function Decimal(n: nat): (s: string)
    ensures s != [] && (forall c :: c in s ==> IsDigit(c)) && Value(s) == n
  {
    var d := '0' + (n % 10) as char;
    if n < 10 then
      assert [d][..0] == [];
      assert Value([d]) == n;
      [d]
    else
      var rest := Decimal(n / 10);
      assert (rest + [d])[..|rest|] == rest;
      rest + [d]
  }

  /** `sub in s`. */
  predicate Contains(s: string, sub: string) {
    exists i | 0 <= i <= |s| :: sub <= s[i..]
  }

  lemma LowerConcat(a: string, b: string)
    ensures Lower(a + b) == Lower(a) + Lower(b)
  {
  }

  lemma LowerTwice(s: string)
    ensures Lower(Lower(s)) == Lower(s)
  {
  }

  lemma LowerSlice(s: string, i: nat, j: nat)
    requires i <= j <= |s|
    ensures Lower(s[i..j]) == Lower(s)[i..j]
  {
  }

  /** `strip` cuts blanks off both ends and nothing else. */
  lemma StripSlice(s: string) returns (i: nat, j: nat)
    ensures i <= j <= |s| && Strip(s) == s[i..j]
    ensures forall k :: 0 <= k < i || j <= k < |s| ==> IsSpace(s[k])
    ensures Trimmed(Strip(s))
  {
    hide IsSpace;
    i := Leading(s);
    var t := s[i..];
    j := i + KeptLength(t);
    assert Strip(s) == s[i..j];
    assert forall k :: j <= k < |s| ==> s[k] == t[k - i];
    if Strip(s) != [] {
      assert s[i] == t[0] && s[j - 1] == t[KeptLength(t) - 1];
    }
  }

  lemma TrimmedStrip(s: string)
    requires Trimmed(s)
    ensures Strip(s) == s
  {
  }

  /** Blanks around a trimmed nonempty text are exactly what `strip` removes. */
  lemma StripPadded(before: string, s: string, after: string)
    requires s != [] && Trimmed(s)
    requires forall c :: c in before + after ==> IsSpace(c)
    ensures Strip(before + s + after) == s
  {
    hide IsSpace;
    var whole := before + s + after;
    assert forall k :: 0 <= k < |before| ==> whole[k] in before + after;
    assert whole[|before|] == s[0] && whole[|before| + |s| - 1] == s[|s| - 1];
    assert Leading(whole) == |before|;
    var t := whole[|before|..];
    assert forall k :: |s| <= k < |t| ==> t[k] == after[k - |s|] && t[k] in before + after;
    assert KeptLength(t) == |s|;
  }

  lemma StripTwice(s: string)
    ensures Trimmed(Strip(s)) && Strip(Strip(s)) == Strip(s)
  {
    var i, j := StripSlice(s);
    TrimmedStrip(Strip(s));
  }

  lemma LowerTrimmed(s: string)
    ensures Trimmed(Lower(s)) == Trimmed(s)
  {
  }

  /** Normalising twice changes nothing; a normal name is exactly a trimmed lower-case one. */
  lemma NormalTwice(s: string)
    ensures Normal(Normal(s)) == Normal(s)
    ensures Trimmed(Normal(s)) && Lower(Normal(s)) == Normal(s)
  {
    StripTwice(s);
    LowerTrimmed(Strip(s));
    LowerTwice(Strip(s));
    TrimmedStrip(Normal(s));
  }

  lemma ContainsAt(before: string, sub: string, after: string)
    ensures Contains(before + sub + after, sub)
  {
    var s := before + sub + after;
    assert s[|before|..] == sub + after;
  }

  lemma ContainsLarger(before: string, s: string, after: string, sub: string)
    requires Contains(s, sub)
    ensures Contains(before + s + after, sub)
  {
    var i :| 0 <= i <= |s| && sub <= s[i..];
    var whole := before + s + after;
    assert whole[|before| + i..] == s[i..] + after;
  }

  lemma ContainsLower(s: string, sub: string)
    requires Contains(s, sub)
    ensures Contains(Lower(s), Lower(sub))
  {
    var i :| 0 <= i <= |s| && sub <= s[i..];
    assert s[i..][..|sub|] == sub;
    assert Lower(s)[i..] == Lower(s[i..]);
    assert Lower(sub) == Lower(s[i..])[..|sub|];
    assert Lower(sub) <= Lower(s)[i..];
  }

  lemma ContainsStripped(s: string, sub: string)
    requires Contains(Strip(s), sub)
    ensures Contains(s, sub)
  {
    var i, j := StripSlice(s);
    ContainsLarger(s[..i], s[i..j], s[j..], sub);
    assert s == s[..i] + s[i..j] + s[j..];
  }

  lemma PrefixAt(s: string, i: nat, sub: string, k: nat)
    requires i <= |s| && k < |sub|
    ensures sub <= s[i..] ==> i + |sub| <= |s| && s[i + k] == sub[k]
  {
    assert sub <= s[i..] ==> s[i..][..|sub|] == sub;
  }

  /** A text that never has the `k`-th character of `sub` where an occurrence would put it does not contain `sub`. */
  lemma NowhereIn(s: string, sub: string, k: nat)
    requires k < |sub|
    requires forall j :: k <= j <= |s| - |sub| + k ==> s[j] != sub[k]
    ensures !Contains(s, sub)
  {
    forall i | 0 <= i <= |s| ensures !(sub <= s[i..]) {
      PrefixAt(s, i, sub, k);
    }
  }

  lemma LowerBetweenColons(field: string)
    ensures Lower(":" + field + ":") == ":" + Lower(field) + ":"
  {
  }

  /** The ASCII tables by code: blanks, digits, and the letters that change case; every other character is left alone. */
  lemma CharacterTables(c: char)
    ensures var n := c as int;
            && (IsSpace(c) <==> n in {9, 10, 11, 12, 13, 28, 29, 30, 31, 32})
            && (IsDigit(c) <==> 48 <= n <= 57)
            && (IsLower(c) <==> 97 <= n <= 122)
            && LowerChar(c) as int == (if 65 <= n <= 90 then n + 32 else n)
            && UpperChar(c) as int == (if 97 <= n <= 122 then n - 32 else n)
  {
  }

  /** A name written with blanks around it has the normal form of the name itself. */
  lemma NormalPadded(before: string, s: string, after: string)
    requires s != [] && Trimmed(s)
    requires forall c :: c in before + after ==> IsSpace(c)
    ensures Normal(before + s + after) == Lower(s)
  {
    StripPadded(before, s, after);
  }
}
