/** SQLite's LIKE with a backslash escape, and the fragment the cache query builds for it. */
module SqlLike {
  import opened Text

  /** `value.replace(c, r)` for a single character `c`. */
  function Replace(s: string, c: char, r: string): string {
    if s == [] then "" else (if s[0] == c then r else [s[0]]) + Replace(s[1..], c, r)
  }

  function LikeFragment(value: string): string {
    EscapeSpecials(Normal(value))
  }

  function EscapeSpecials(s: string): string {
    Replace(Replace(Replace(s, '\\', "\\\\"), '%', "\\%"), '_', "\\_")
  }

  /** `text LIKE pattern ESCAPE '\'`: `%` is any text, `_` any character, ASCII case is ignored. */
  predicate Like(pattern: string, text: string)
    decreases |pattern|, |text|
  {
    if pattern == "" then text == ""
    else if pattern[0] == '%' then Like(pattern[1..], text) || (text != "" && Like(pattern, text[1..]))
    else if pattern[0] == '_' then text != "" && Like(pattern[1..], text[1..])
    else if pattern[0] == '\\' then |pattern| > 1 && text != "" && Same(pattern[1], text[0]) && Like(pattern[2..], text[1..])
    else text != "" && Same(pattern[0], text[0]) && Like(pattern[1..], text[1..])
  }

  predicate Same(a: char, b: char) {
    LowerChar(a) == LowerChar(b)
  }

  predicate Special(c: char) {
    c == '\\' || c == '%' || c == '_'
  }

  /** Each character LIKE would interpret, preceded by a backslash. */
  function Escaped(s: string): string {
    if s == [] then "" else (if Special(s[0]) then ['\\', s[0]] else [s[0]]) + Escaped(s[1..])
  }

  lemma {:induction false} ReplaceConcat(a: string, b: string, c: char, r: string)
    ensures Replace(a + b, c, r) == Replace(a, c, r) + Replace(b, c, r)
  {
    if a == [] {
      assert a + b == b;
    } else {
      assert (a + b)[1..] == a[1..] + b;
      ReplaceConcat(a[1..], b, c, r);
    }
  }

  lemma ReplaceOne(x: char, c: char, r: string)
    ensures Replace([x], c, r) == if x == c then r else [x]
  {
    assert [x][1..] == [];
  }

  lemma ReplaceTwo(x: char, y: char, c: char, r: string)
    ensures Replace([x, y], c, r) == (if x == c then r else [x]) + (if y == c then r else [y])
  {
    assert [x, y] == [x] + [y];
    ReplaceConcat([x], [y], c, r);
    ReplaceOne(x, c, r);
    ReplaceOne(y, c, r);
  }

  lemma EscapeSpecialsConcat(a: string, b: string)
    ensures EscapeSpecials(a + b) == EscapeSpecials(a) + EscapeSpecials(b)
  {
    ReplaceConcat(a, b, '\\', "\\\\");
    var a1, b1 := Replace(a, '\\', "\\\\"), Replace(b, '\\', "\\\\");
    ReplaceConcat(a1, b1, '%', "\\%");
    ReplaceConcat(Replace(a1, '%', "\\%"), Replace(b1, '%', "\\%"), '_', "\\_");
  }

  lemma EscapeSpecialsOne(x: char)
    ensures EscapeSpecials([x]) == if Special(x) then ['\\', x] else [x]
  {
    ReplaceOne(x, '\\', "\\\\");
    ReplaceTwo('\\', '\\', '%', "\\%");
    ReplaceTwo('\\', '\\', '_', "\\_");
    ReplaceOne(x, '%', "\\%");
    ReplaceTwo('\\', '%', '_', "\\_");
    ReplaceOne(x, '_', "\\_");
  }

  /** The three replacements, in their order, escape each special character exactly once. */
  lemma {:induction false} ReplacementsEscape(s: string)
    ensures EscapeSpecials(s) == Escaped(s)
  {
    if s != [] {
      EscapeSpecialsConcat([s[0]], s[1..]);
      assert s == [s[0]] + s[1..];
      EscapeSpecialsOne(s[0]);
      ReplacementsEscape(s[1..]);
    }
  }

  lemma LikeLiteralChar(x: char, rest: string, text: string)
    ensures Like((if Special(x) then ['\\', x] else [x]) + rest, text) <==>
            text != "" && Same(x, text[0]) && Like(rest, text[1..])
  {
    if Special(x) {
      assert (['\\', x] + rest)[2..] == rest;
    } else {
      assert ([x] + rest)[1..] == rest;
    }
  }

  lemma PrefixCons(a: char, s: string, b: char, t: string)
    ensures [a] + s <= [b] + t <==> a == b && s <= t
  {
    assert ([a] + s)[1..] == s && ([b] + t)[1..] == t;
    if a == b && s <= t {
      assert t == s + t[|s|..];
      assert [b] + t == [a] + s + t[|s|..];
    }
    if [a] + s <= [b] + t {
      var both := ([b] + t)[..1 + |s|];
      assert both == [a] + s && both == [b] + t[..|s|];
      assert both[0] == a && both[0] == b;
      assert both[1..] == s && both[1..] == t[..|s|];
    }
  }

  lemma {:induction false} LikeLiteral(w: string, rest: string, text: string)
    ensures Like(Escaped(w) + rest, text) <==> Lower(w) <= Lower(text) && Like(rest, text[|w|..])
  {
    if w == [] {
      assert Escaped(w) + rest == rest;
    } else {
      var first := if Special(w[0]) then ['\\', w[0]] else [w[0]];
      assert Escaped(w) + rest == first + (Escaped(w[1..]) + rest);
      LikeLiteralChar(w[0], Escaped(w[1..]) + rest, text);
      if text != "" {
        LikeLiteral(w[1..], rest, text[1..]);
        if |w| <= |text| {
          assert text[1..][|w| - 1..] == text[|w|..];
        }
        assert Lower(w) == [LowerChar(w[0])] + Lower(w[1..]);
        assert Lower(text) == [LowerChar(text[0])] + Lower(text[1..]);
        PrefixCons(LowerChar(w[0]), Lower(w[1..]), LowerChar(text[0]), Lower(text[1..]));
      }
    }
  }

  lemma {:induction false} LikePercent(rest: string, text: string)
    ensures Like("%" + rest, text) <==> exists i :: 0 <= i <= |text| && Like(rest, text[i..])
  {
    assert ("%" + rest)[1..] == rest;
    assert text[0..] == text;
    if text != "" {
      LikePercent(rest, text[1..]);
      assert forall i :: 0 <= i <= |text| - 1 ==> text[1..][i..] == text[i + 1..];
      if Like("%" + rest, text) && !Like(rest, text) {
        var i :| 0 <= i <= |text| - 1 && Like(rest, text[1..][i..]);
        assert Like(rest, text[i + 1..]);
      }
      if i :| 0 < i <= |text| && Like(rest, text[i..]) {
        assert Like(rest, text[1..][i - 1..]);
      }
    }
  }

  lemma LikeAnything(text: string)
    ensures Like("%", text)
  {
    LikePercent("", text);
    assert "%" + "" == "%";
    assert text[|text|..] == "";
  }

  /** The pattern bound in the cache query: `%:` + fragment + `:%`. */
  function Pattern(component: string): string {
    "%:" + LikeFragment(component) + ":%"
  }

  /** On lower-case text, LIKE on the escaped fragment is a plain substring test, whatever the component holds. */
  lemma LikeIsSubstring(component: string, text: string)
    requires Lower(text) == text
    ensures Like(Pattern(component), text) <==> Contains(text, ":" + Normal(component) + ":")
  {
    var name := Normal(component);
    var w := ":" + name + ":";
    ReplacementsEscape(name);
    EscapedColons(name);
    assert Pattern(component) == "%" + (Escaped(w) + "%");
    LikePercent(Escaped(w) + "%", text);
    NormalTwice(component);
    LowerBetweenColons(name);
    forall i | 0 <= i <= |text|
      ensures Like(Escaped(w) + "%", text[i..]) <==> w <= text[i..]
    {
      LikeLiteral(w, "%", text[i..]);
      assert Lower(text[i..]) == text[i..] by { LowerSlice(text, i, |text|); }
      if w <= text[i..] {
        LikeAnything(text[i..][|w|..]);
      }
    }
  }

  lemma EscapedColons(name: string)
    ensures Escaped(":" + name + ":") == ":" + Escaped(name) + ":"
  {
    EscapedConcat(name, ":");
    assert (":" + name + ":")[1..] == name + ":";
    assert ":"[1..] == "";
  }

  lemma {:induction false} EscapedConcat(a: string, b: string)
    ensures Escaped(a + b) == Escaped(a) + Escaped(b)
  {
    if a == [] {
      assert a + b == b;
    } else {
      assert (a + b)[1..] == a[1..] + b;
      EscapedConcat(a[1..], b);
    }
  }
}
