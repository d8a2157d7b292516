/** Total orders, lexicographic comparison and sorted listings of sets. */
module Ordering {

  ghost predicate TotalOrder<T(!new)>(leq: (T, T) -> bool) {
    && (forall x :: leq(x, x))
    && (forall x, y :: leq(x, y) && leq(y, x) ==> x == y)
    && (forall x, y, z :: leq(x, y) && leq(y, z) ==> leq(x, z))
    && (forall x, y :: leq(x, y) || leq(y, x))
  }

  /** Python's comparison of sequences: first difference decides, a proper prefix is smaller. */
  predicate Lex<T(==)>(leq: (T, T) -> bool, a: seq<T>, b: seq<T>) {
    a == [] || (b != [] && if a[0] == b[0] then Lex(leq, a[1..], b[1..]) else leq(a[0], b[0]))
  }

  lemma {:induction false} LexReflexive<T(!new)>(leq: (T, T) -> bool, a: seq<T>)
    ensures Lex(leq, a, a)
  {
    if a != [] {
      LexReflexive(leq, a[1..]);
    }
  }

  lemma {:induction false} LexAntisymmetric<T(!new)>(leq: (T, T) -> bool, a: seq<T>, b: seq<T>)
    requires TotalOrder(leq)
    requires Lex(leq, a, b) && Lex(leq, b, a)
    ensures a == b
  {
    if a != [] && b != [] && a[0] == b[0] {
      LexAntisymmetric(leq, a[1..], b[1..]);
    }
  }

  lemma {:induction false} LexTransitive<T(!new)>(leq: (T, T) -> bool, a: seq<T>, b: seq<T>, c: seq<T>)
    requires TotalOrder(leq)
    requires Lex(leq, a, b) && Lex(leq, b, c)
    ensures Lex(leq, a, c)
  {
    if a != [] && a[0] == b[0] && b[0] == c[0] {
      LexTransitive(leq, a[1..], b[1..], c[1..]);
    }
  }

  lemma {:induction false} LexTotal<T(!new)>(leq: (T, T) -> bool, a: seq<T>, b: seq<T>)
    requires TotalOrder(leq)
    ensures Lex(leq, a, b) || Lex(leq, b, a)
  {
    if a != [] && b != [] && a[0] == b[0] {
      LexTotal(leq, a[1..], b[1..]);
    }
  }

  lemma {:induction false} LexCommonPrefix<T(!new)>(leq: (T, T) -> bool, p: seq<T>, a: seq<T>, b: seq<T>)
    ensures Lex(leq, p + a, p + b) == Lex(leq, a, b)
  {
    if p == [] {
      assert p + a == a && p + b == b;
    } else {
      assert (p + a)[1..] == p[1..] + a && (p + b)[1..] == p[1..] + b;
      LexCommonPrefix(leq, p[1..], a, b);
    }
  }

  predicate CharLe(a: char, b: char) {
    a <= b
  }

  /** Text order by code point; SQLite's BINARY collation and Python's `<=` agree on it. */
  predicate StrLe(a: string, b: string) {
    Lex(CharLe, a, b)
  }

  /** The first differing character decides by its code, whatever follows; a text is never above its extensions. */
  lemma TextOrder(common: string, a: char, b: char, restA: string, restB: string)
    ensures a < b ==> StrLe(common + ([a] + restA), common + ([b] + restB)) && !StrLe(common + ([b] + restB), common + ([a] + restA))
    ensures StrLe(common, common + restA)
    ensures restA != "" ==> !StrLe(common + restA, common)
  {
    LexCommonPrefix(CharLe, common, [a] + restA, [b] + restB);
    LexCommonPrefix(CharLe, common, [b] + restB, [a] + restA);
    LexCommonPrefix(CharLe, common, "", restA);
    LexCommonPrefix(CharLe, common, restA, "");
    assert common + "" == common;
  }

  predicate PairLe(a: (string, string), b: (string, string)) {
    if a.0 == b.0 then StrLe(a.1, b.1) else StrLe(a.0, b.0)
  }

  lemma CharOrder()
    ensures TotalOrder(CharLe)
  {
  }

  lemma StrOrder()
    ensures TotalOrder(StrLe)
  {
    CharOrder();
    forall x: string, y: string, z: string
      ensures StrLe(x, x)
      ensures StrLe(x, y) && StrLe(y, x) ==> x == y
      ensures StrLe(x, y) && StrLe(y, z) ==> StrLe(x, z)
      ensures StrLe(x, y) || StrLe(y, x)
    {
      LexReflexive(CharLe, x);
      LexTotal(CharLe, x, y);
      if StrLe(x, y) && StrLe(y, x) {
        LexAntisymmetric(CharLe, x, y);
      }
      if StrLe(x, y) && StrLe(y, z) {
        LexTransitive(CharLe, x, y, z);
      }
    }
  }

  lemma PairOrder()
    ensures TotalOrder(PairLe)
  {
    StrOrder();
  }

  /** Strictly increasing, hence without repetition. */
  ghost predicate Increasing<T(!new)>(leq: (T, T) -> bool, s: seq<T>) {
    forall i, j :: 0 <= i < j < |s| ==> leq(s[i], s[j]) && s[i] != s[j]
  }

  lemma {:induction false} MinimumExists<T(!new)>(leq: (T, T) -> bool, s: set<T>) returns (m: T)
    requires TotalOrder(leq)
    requires s != {}
    ensures m in s && forall x :: x in s ==> leq(m, x)
  {
    var a :| a in s;
    m := a;
    if s != {a} {
      var b := MinimumExists(leq, s - {a});
      m := if leq(b, a) then b else a;
    }
  }

  /** The smallest element of a nonempty set. */
  function Minimum<T(==, !new)>(leq: (T, T) -> bool, s: set<T>): (m: T)
    requires TotalOrder(leq)
    requires s != {}
    ensures m in s && forall x :: x in s ==> leq(m, x)
  {
    assert exists m :: m in s && forall x :: x in s ==> leq(m, x) by {
      var b := MinimumExists(leq, s);
    }
    var m :| m in s && forall x :: x in s ==> leq(m, x);
    m
  }

  /** `sorted(s)` for a set. */
  function Sorted<T(==, !new)>(leq: (T, T) -> bool, s: set<T>): (r: seq<T>)
    requires TotalOrder(leq)
    ensures Increasing(leq, r)
    ensures forall x :: x in r <==> x in s
    ensures |r| == |s|
  {
    if s == {} then []
    else
      var m := Minimum(leq, s);
      [m] + Sorted(leq, s - {m})
  }

  /** `sorted(s)` for a set of texts. */
  function SortedTexts(s: set<string>): (r: seq<string>)
    ensures Increasing(StrLe, r) && |r| == |s|
    ensures forall x :: x in r <==> x in s
  {
    StrOrder();
    Sorted(StrLe, s)
  }

  /** `sorted(s)` for a set of pairs of texts. */
  function SortedPairs(s: set<(string, string)>): (r: seq<(string, string)>)
    ensures Increasing(PairLe, r) && |r| == |s|
    ensures forall x :: x in r <==> x in s
  {
    PairOrder();
    Sorted(PairLe, s)
  }

  /** Two increasing listings of the same elements are the same listing. */
  lemma {:induction false} IncreasingUnique<T(!new)>(leq: (T, T) -> bool, a: seq<T>, b: seq<T>)
    requires TotalOrder(leq)
    requires Increasing(leq, a) && Increasing(leq, b)
    requires forall x :: x in a <==> x in b
    ensures a == b
  {
    if a == [] {
      assert forall i :: 0 <= i < |b| ==> b[i] in a;
    } else {
      assert a[0] in b && b[0] in a;
      assert a[0] == b[0];
      assert a == [a[0]] + a[1..] && b == [b[0]] + b[1..];
      forall x ensures x in a[1..] <==> x in b[1..] {
        if x in a[1..] { assert x in b && x != a[0]; }
        if x in b[1..] { assert x in a && x != b[0]; }
      }
      IncreasingUnique(leq, a[1..], b[1..]);
    }
  }

  lemma TakeNext<T>(s: seq<T>, i: nat)
    requires i < |s|
    ensures s[..i + 1] == s[..i] + [s[i]]
  {
  }

  lemma IncreasingNext<T(!new)>(leq: (T, T) -> bool, s: seq<T>, x: T)
    requires Increasing(leq, s) && forall y :: y in s ==> leq(y, x) && y != x
    ensures Increasing(leq, s + [x])
  {
    assert forall i :: 0 <= i < |s| ==> s[i] in s;
  }

  lemma IncreasingLast<T(!new)>(leq: (T, T) -> bool, s: seq<T>, n: nat)
    requires Increasing(leq, s) && n < |s|
    ensures Increasing(leq, s[..n])
    ensures forall y :: y in s[..n] ==> leq(y, s[n]) && y != s[n]
  {
  }
}
