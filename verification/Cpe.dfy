/** CPE 2.3 formatted strings (NISTIR 7695 section 6.2): escape-aware splitting and parsing. */
module Cpe {
  import opened Text
  import opened Options

  datatype CpeName = CpeName(part: string, vendor: string, product: string, version: string)

  const PART_INDEX := 2
  const VENDOR_INDEX := 3
  const PRODUCT_INDEX := 4
  const VERSION_INDEX := 5
  const MIN_FIELDS := VERSION_INDEX + 1

  /** `":".join(fields)`. */
  function Join(fields: seq<string>): string {
    if fields == [] then ""
    else if |fields| == 1 then fields[0]
    else fields[0] + ":" + Join(fields[1..])
  }

  /** Whether `s`, read with `escaped` saying if a backslash is pending, holds no unescaped colon. */
  predicate NoBareColon(s: string, escaped: bool) {
    s == [] || (if escaped then NoBareColon(s[1..], false)
                else s[0] != ':' && NoBareColon(s[1..], s[0] == '\\'))
  }

  /** Whether a backslash is still pending after reading `s`. */
  predicate Pending(s: string, escaped: bool) {
    if s == [] then escaped else Pending(s[1..], !escaped && s[0] == '\\')
  }

  /** A field that a colon may follow: no bare colon, and no dangling backslash to swallow the colon. */
  predicate Closed(field: string) {
    NoBareColon(field, false) && !Pending(field, false)
  }

  /** Fields as NISTIR 7695 writes them: escapes complete everywhere but possibly in the last. */
  ghost predicate WellEscaped(fields: seq<string>) {
    && fields != []
    && NoBareColon(fields[|fields| - 1], false)
    && forall i :: 0 <= i < |fields| - 1 ==> Closed(fields[i])
  }

  lemma {:induction false} ScanAppend(s: string, c: char, escaped: bool)
    ensures Pending(s + [c], escaped) == (!Pending(s, escaped) && c == '\\')
    ensures NoBareColon(s + [c], escaped) == (NoBareColon(s, escaped) && (Pending(s, escaped) || c != ':'))
  {
    if s == [] {
      assert (s + [c])[1..] == [];
    } else {
      assert (s + [c])[1..] == s[1..] + [c];
      ScanAppend(s[1..], c, !escaped && s[0] == '\\');
    }
  }

  lemma {:induction false} JoinAppend(fields: seq<string>, last: string)
    requires fields != []
    ensures Join(fields + [last]) == Join(fields) + ":" + last
  {
    if |fields| == 1 {
      assert (fields + [last])[1..] == [last];
      assert Join([last]) == last;
    } else {
      assert (fields + [last])[1..] == fields[1..] + [last];
      JoinAppend(fields[1..], last);
    }
  }

  lemma {:induction false} JoinExtend(fields: seq<string>, last: string, c: char)
    ensures Join(fields + [last + [c]]) == Join(fields + [last]) + [c]
  {
    if fields == [] {
      assert fields + [last + [c]] == [last + [c]] && fields + [last] == [last];
    } else {
      JoinAppend(fields, last + [c]);
      JoinAppend(fields, last);
    }
  }

  /** The loop of `split_cpe_fields`: joining gives the input back and no field holds a bare colon. */
  method SplitCpeFields(cpe: string) returns (fields: seq<string>)
    ensures Join(fields) == cpe
    ensures WellEscaped(fields)
    ensures fields == Split(cpe)
  {
    fields := [];
    var current := [];
    var escaped := false;
    assert Join([""]) == "";
    for i := 0 to |cpe|
      invariant Join(fields + [current]) == cpe[..i]
      invariant forall k :: 0 <= k < |fields| ==> Closed(fields[k])
      invariant NoBareColon(current, false) && Pending(current, false) == escaped
    {
      var character := cpe[i];
      ghost var was := current;
      assert cpe[..i + 1] == cpe[..i] + [character];
      ScanAppend(current, character, false);
      JoinExtend(fields, current, character);
      if escaped {
        current := current + [character];
        escaped := false;
      } else if character == '\\' {
        escaped := true;
        current := current + [character];
      } else if character == ':' {
        JoinAppend(fields + [current], "");
        fields := fields + [current];
        current := [];
      } else {
        current := current + [character];
      }
    }
    fields := fields + [current];
    assert cpe[..|cpe|] == cpe;
    SplitUnique(cpe, fields);
  }

  /** The first field of `s` ends at the first colon that no backslash escapes. */
  function FieldEnd(s: string, escaped: bool): (n: nat)
    ensures n <= |s|
    ensures NoBareColon(s[..n], escaped)
    ensures n < |s| ==> s[n] == ':' && !Pending(s[..n], escaped)
  {
    if s == [] || (!escaped && s[0] == ':') then 0
    else
      var m := FieldEnd(s[1..], !escaped && s[0] == '\\');
      assert s[..1 + m][1..] == s[1..][..m];
      1 + m
  }

  /** The result of the splitting loop as a recursive function. */
  function Split(s: string): (fields: seq<string>)
    ensures Join(fields) == s
    ensures WellEscaped(fields)
    decreases |s|
  {
    var n := FieldEnd(s, false);
    if n == |s| then
      assert s[..n] == s;
      [s]
    else
      var rest := Split(s[n + 1..]);
      assert ([s[..n]] + rest)[1..] == rest;
      assert s == s[..n] + ":" + s[n + 1..];
      [s[..n]] + rest
  }

  lemma {:induction false} FieldEndClosed(field: string, escaped: bool, rest: string)
    requires NoBareColon(field, escaped)
    ensures FieldEnd(field, escaped) == |field|
    ensures !Pending(field, escaped) && rest != [] && rest[0] == ':' ==> FieldEnd(field + rest, escaped) == |field|
  {
    if field == [] {
      assert field + rest == rest;
    } else {
      assert (field + rest)[1..] == field[1..] + rest;
      FieldEndClosed(field[1..], !escaped && field[0] == '\\', rest);
    }
  }

  /** Splitting is invertible: well-escaped fields are recovered from their join, so the split is unique. */
  lemma {:induction false} SplitJoin(fields: seq<string>)
    requires WellEscaped(fields)
    ensures Split(Join(fields)) == fields
    decreases |fields|
  {
    var first := fields[0];
    if |fields| == 1 {
      FieldEndClosed(first, false, "");
      assert fields == [first];
    } else {
      var tail := Join(fields[1..]);
      assert Join(fields) == first + (":" + tail);
      FieldEndClosed(first, false, ":" + tail);
      assert Join(fields)[|first| + 1..] == tail;
      assert Join(fields)[..|first|] == first;
      SplitJoin(fields[1..]);
      assert fields == [first] + fields[1..];
    }
  }

  lemma SplitUnique(s: string, fields: seq<string>)
    requires Join(fields) == s && WellEscaped(fields)
    ensures fields == Split(s)
  {
    SplitJoin(fields);
  }

  function ParseCpe(cpe: string): Option<CpeName> {
    var fields := Split(Strip(cpe));
    if |fields| < MIN_FIELDS || Lower(fields[0]) != "cpe" || fields[1] != "2.3" then None
    else Some(CpeName(Lower(fields[PART_INDEX]), Lower(fields[VENDOR_INDEX]),
                      Lower(fields[PRODUCT_INDEX]), Lower(fields[VERSION_INDEX])))
  }

  /** A text parses exactly when, stripped, it is the colon-join of six or more well-escaped fields of which the first
      is `cpe` in any case and the second `2.3`; the attributes are fields two to five in lower case. */
  lemma ParseExactly(cpe: string, name: CpeName)
    ensures ParseCpe(cpe) == Some(name) <==>
            exists fields :: WellEscaped(fields) && Join(fields) == Strip(cpe) && |fields| >= 6
                             && Lower(fields[0]) == "cpe" && fields[1] == "2.3"
                             && name == CpeName(Lower(fields[2]), Lower(fields[3]), Lower(fields[4]), Lower(fields[5]))
  {
    hide Strip, Join, Lower, WellEscaped;
    assert WellEscaped(Split(Strip(cpe)));
    forall fields | WellEscaped(fields) && Join(fields) == Strip(cpe) ensures fields == Split(Strip(cpe)) {
      SplitUnique(Strip(cpe), fields);
    }
  }

  /** Printing a CPE name and parsing it returns the printed attributes in lower case. */
  lemma ParsePrinted(fields: seq<string>, cpe: string)
    requires |fields| >= MIN_FIELDS && WellEscaped(fields)
    requires fields[0] == "cpe" && fields[1] == "2.3" && Strip(cpe) == Join(fields)
    ensures ParseCpe(cpe) == Some(CpeName(Lower(fields[2]), Lower(fields[3]), Lower(fields[4]), Lower(fields[5])))
  {
    hide Strip, Split, Join;
    SplitJoin(fields);
    assert Lower("cpe") == "cpe";
  }

  lemma {:induction false} JoinMiddle(fields: seq<string>, k: nat)
    requires 0 < k < |fields| - 1
    ensures Contains(Join(fields), ":" + fields[k] + ":")
  {
    var s := Join(fields);
    var tail := Join(fields[1..]);
    var sub := ":" + fields[k] + ":";
    if k == 1 {
      assert s == fields[0] + sub + Join(fields[1..][1..]);
      ContainsAt(fields[0], sub, Join(fields[1..][1..]));
    } else {
      JoinMiddle(fields[1..], k - 1);
      ContainsLarger(fields[0] + ":", tail, "", sub);
      assert s == fields[0] + ":" + tail + "";
    }
  }

  /** A field without colons and backslashes needs no escaping. */
  lemma {:induction false} PlainField(field: string)
    requires ':' !in field && '\\' !in field
    ensures Closed(field)
  {
    if field != "" {
      PlainField(field[1..]);
    }
  }

  /** The text of a parsed CPE, in lower case, holds its product between two colons. */
  lemma ProductBetweenColons(cpe: string)
    requires ParseCpe(cpe).Some?
    ensures Contains(Lower(cpe), ":" + ParseCpe(cpe).value.product + ":")
  {
    var fields := Split(Strip(cpe));
    var field := fields[PRODUCT_INDEX];
    JoinMiddle(fields, PRODUCT_INDEX);
    ContainsStripped(cpe, ":" + field + ":");
    ContainsLower(cpe, ":" + field + ":");
    LowerBetweenColons(field);
  }
}
