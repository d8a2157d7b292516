/** The embedded CVE cache: its table, the row filter, and `lookup_sync`. */
module CveCache {
  import opened Options
  import opened Text
  import opened Ordering
  import opened Cpe
  import opened SqlLike
  import opened Version

  /** `(cve_id, cpe_id)`, the primary key. */
  type RowKey = (string, string)

  datatype Details = Details(cvss: Option<real>, description: string, exploited: bool)

  datatype Row = Row(details: Details, product: Option<string>, bounds: VersionRange)

  type Table = map<RowKey, Row>

  datatype CveEntry = CveEntry(
    cveId: string,
    cpeId: string,
    details: Details,
    product: Option<string>,
    range: Option<VersionRange>)

  const SCHEMA_VERSION := 2

  function RowRange(row: Row): Option<VersionRange> {
    if row.bounds.IsBounded() then Some(row.bounds) else None
  }

  /** The product a row stands for: the stored column when nonempty, else the one its CPE names. */
  function StoredProduct(cpe: string, row: Row): Option<string> {
    if row.product.Some? && row.product.value != "" then row.product
    else if ParseCpe(cpe).Some? then Some(ParseCpe(cpe).value.product)
    else None
  }

  predicate RowMatches(cpe: string, row: Row, product: string, version: string) {
    var stored := StoredProduct(cpe, row);
    if stored.None? || Normal(stored.value) != product then false
    else
      var cpeVersion := if ParseCpe(cpe).Some? then ParseCpe(cpe).value.version else "";
      MatchesVersion(cpeVersion, version, RowRange(row))
  }

  /** The WHERE clause of the cache query. */
  predicate Selected(cpe: string, row: Row, component: string) {
    row.product == Some(Normal(component)) || (row.product.None? && Like(Pattern(component), Lower(cpe)))
  }

  // ---- The prefilter ----

  /** What the WHERE clause keeps among the rows that `_row_matches` would accept, exactly. */
  lemma PrefilterExact(cpe: string, row: Row, component: string, version: string)
    requires Normal(component) != ""
    requires RowMatches(cpe, row, Normal(component), version)
    ensures row.product.Some? ==>
              (Selected(cpe, row, component) <==> row.product.value != "" && row.product.value == Normal(row.product.value))
    ensures row.product.None? ==>
              (Selected(cpe, row, component) <==> Contains(Lower(cpe), ":" + Normal(component) + ":"))
  {
    LowerTwice(cpe);
    LikeIsSubstring(component, Lower(cpe));
  }

  /** The prefilter loses no row whose product column is null or a nonempty normal name,
      provided its CPE product field has no surrounding blanks. */
  lemma PrefilterLosesNothing(cpe: string, row: Row, component: string, version: string)
    requires Normal(component) != ""
    requires RowMatches(cpe, row, Normal(component), version)
    requires row.product.Some? ==> row.product.value != "" && row.product.value == Normal(row.product.value)
    requires ParseCpe(cpe).Some? ==> Trimmed(ParseCpe(cpe).value.product)
    ensures Selected(cpe, row, component)
  {
    PrefilterExact(cpe, row, component, version);
    if row.product.None? {
      var product := ParseCpe(cpe).value.product;
      ProductBetweenColons(cpe);
      ParsedIsLower(cpe);
      TrimmedStrip(product);
    }
  }

  lemma ParsedIsLower(cpe: string)
    requires ParseCpe(cpe).Some?
    ensures Lower(ParseCpe(cpe).value.product) == ParseCpe(cpe).value.product
  {
    LowerTwice(Split(Strip(cpe))[PRODUCT_INDEX]);
  }

  /** A row that matches although the query never sees it: a product column that is not in normal form. */
  lemma PrefilterDropsUnnormalProduct()
    ensures var bounds := VersionRange(None, None, Some("1"), None);
            var row := Row(Details(None, "", false), Some("B"), bounds);
            RowMatches("", row, Normal("b"), "1") && !Selected("", row, "b")
  {
    assert Lower("B") == "b" && Lower("b") == "b" && Lower("1") == "1";
    TrimmedStrip("B");
    TrimmedStrip("b");
    TrimmedStrip("1");
    TrimmedStrip("");
    assert ParseCpe("").None? by { assert FieldEnd("", false) == 0; }
  }

  /** Another: a null product column, and blanks around the product field of the CPE. */
  lemma PrefilterDropsPaddedProduct()
    ensures var row := Row(Details(None, "", false), None, VersionRange(None, None, None, None));
            var cpe := Join(["cpe", "2.3", "a", "v", " b ", "1"]);
            RowMatches(cpe, row, Normal("b"), "1") && !Selected(cpe, row, "b")
  {
    hide ParseCpe, Join, Strip, Lower, Selected, Contains;
    var row := Row(Details(None, "", false), None, VersionRange(None, None, None, None));
    var cpe := "cpe:2.3:a:v: b :1";
    PaddedJoin();
    PaddedParse();
    LowerLiterals();
    TrimmedStrip("b");
    TrimmedStrip("1");
    assert " " + "b" + " " == " b ";
    StripPadded(" ", "b", " ");
    assert RowMatches(cpe, row, Normal("b"), "1");
    PrefilterExact(cpe, row, "b", "1");
    NotBetweenColons(Lower(cpe));
    assert ":" + "b" + ":" == ":b:";
  }

  lemma LowerLiterals()
    ensures Lower("b") == "b" && Lower("1") == "1" && Lower("cpe:2.3:a:v: b :1") == "cpe:2.3:a:v: b :1"
    ensures Lower("a") == "a" && Lower("v") == "v" && Lower(" b ") == " b "
  {
  }

  lemma PaddedParse()
    ensures ParseCpe("cpe:2.3:a:v: b :1") == Some(CpeName("a", "v", " b ", "1"))
  {
    hide Lower, ParseCpe, Join;
    var fields := ["cpe", "2.3", "a", "v", " b ", "1"];
    PlainField("cpe");
    PlainField("2.3");
    PlainField("a");
    PlainField("v");
    PlainField(" b ");
    PlainField("1");
    hide NoBareColon, Closed;
    assert WellEscaped(fields) by { PlainLast(); }
    PaddedJoin();
    TrimmedStrip("cpe:2.3:a:v: b :1");
    LowerLiterals();
    ParsePrinted(fields, "cpe:2.3:a:v: b :1");
  }

  lemma PlainLast()
    ensures NoBareColon("1", false)
  {
    PlainField("1");
  }

  lemma NotBetweenColons(s: string)
    requires forall j :: 0 <= j < |s| - 1 && s[j] == ':' ==> s[j + 1] != 'b'
    ensures !Contains(s, ":b:")
  {
    forall i | 0 <= i <= |s| ensures !(":b:" <= s[i..]) {
      PrefixAt(s, i, ":b:", 0);
      PrefixAt(s, i, ":b:", 1);
    }
  }

  lemma PaddedJoin()
    ensures Join(["cpe", "2.3", "a", "v", " b ", "1"]) == "cpe:2.3:a:v: b :1"
  {
    assert ["cpe", "2.3", "a", "v", " b ", "1"][1..] == ["2.3", "a", "v", " b ", "1"];
    assert ["2.3", "a", "v", " b ", "1"][1..] == ["a", "v", " b ", "1"];
    assert ["a", "v", " b ", "1"][1..] == ["v", " b ", "1"];
    assert ["v", " b ", "1"][1..] == [" b ", "1"];
    assert [" b ", "1"][1..] == ["1"];
  }

  // ---- Lookup ----

  /** The stored rows that survive the query and match the wanted version. */
  function Hits(table: Table, component: string, version: string): (hits: set<RowKey>)
    ensures hits <= table.Keys
  {
    if Strip(component) == "" || Strip(version) == "" then {}
    else
      set key | key in table && Selected(key.1, table[key], component) &&
                RowMatches(key.1, table[key], Normal(component), Strip(version))
  }

  /** Which rows of any table answer a query: the product column is the normal name, or it is null and the CPE names the
      product up to case and outer blanks and holds the name between colons; and the row covers the version. */
  lemma HitExactly(table: Table, key: RowKey, component: string, version: string)
    requires key in table
    ensures key in Hits(table, component, version) <==>
            var row := table[key]; var name := Normal(component); var cpe := ParseCpe(key.1);
            && name != "" && Strip(version) != ""
            && (match row.product
                case Some(product) => product == name
                case None => cpe.Some? && Normal(cpe.value.product) == name && Contains(Lower(key.1), ":" + name + ":"))
            && var field := if cpe.Some? then cpe.value.version else "";
               || (!IsWild(field) && VersionKey(field) == VersionKey(version))
               || (row.bounds.IsBounded() && KeepsBounds(row.bounds, version))
  {
    hide ParseCpe, MatchesVersion, IsWild, KeepsBounds, VersionKey, Contains;
    NormalTwice(component);
    StripTwice(version);
    LowerTwice(key.1);
    LikeIsSubstring(component, Lower(key.1));
    MatchesExactly(if ParseCpe(key.1).Some? then ParseCpe(key.1).value.version else "", Strip(version), RowRange(table[key]));
    StrippedKey(version);
    KeepsStripped(table[key].bounds, version);
  }

  lemma StrippedKey(version: string)
    ensures VersionKey(Strip(version)) == VersionKey(version)
  {
    StripTwice(version);
  }

  lemma KeepsStripped(bounds: VersionRange, version: string)
    ensures KeepsBounds(bounds, Strip(version)) == KeepsBounds(bounds, version)
  {
    hide VersionKey;
    StrippedKey(version);
  }

  /** Of each CVE among `hits`, the row with the smallest CPE. */
  function SmallestPerCve(hits: set<RowKey>): set<RowKey> {
    set key | key in hits && forall other | other in hits :: other.0 == key.0 ==> StrLe(key.1, other.1)
  }

  function Answers(hits: set<RowKey>): seq<RowKey> {
    SortedPairs(SmallestPerCve(hits))
  }

  function EntryOf(table: Table, key: RowKey): CveEntry
    requires key in table
  {
    CveEntry(key.0, key.1, table[key].details, table[key].product, RowRange(table[key]))
  }

  function EntriesOf(table: Table, keys: seq<RowKey>): (entries: seq<CveEntry>)
    requires forall key :: key in keys ==> key in table
    ensures |entries| == |keys| && forall i :: 0 <= i < |keys| ==> entries[i] == EntryOf(table, keys[i])
  {
    if keys == [] then []
    else EntriesOf(table, keys[..|keys| - 1]) + [EntryOf(table, keys[|keys| - 1])]
  }

  /** What `lookup_sync` returns: for every matching CVE, in CVE order, its smallest matching CPE row. */
  function Lookup(table: Table, component: string, version: string): seq<CveEntry> {
    EntriesOf(table, Answers(Hits(table, component, version)))
  }

  predicate Reports(entries: seq<CveEntry>, cve: string) {
    exists i | 0 <= i < |entries| :: entries[i].cveId == cve
  }

  /** Entries come in strict CVE order, so no CVE is reported twice. */
  lemma LookupIsOrdered(table: Table, component: string, version: string)
    ensures var entries := Lookup(table, component, version);
            forall i, j :: 0 <= i < j < |entries| ==>
                             StrLe(entries[i].cveId, entries[j].cveId) && entries[i].cveId != entries[j].cveId
  {
    AnswersAreOrdered(Hits(table, component, version));
  }

  lemma AnswersAreOrdered(hits: set<RowKey>)
    ensures var answers := Answers(hits);
            forall i, j :: 0 <= i < j < |answers| ==>
                             StrLe(answers[i].0, answers[j].0) && answers[i].0 != answers[j].0
  {
    StrOrder();
    var answers := Answers(hits);
    forall i, j | 0 <= i < j < |answers|
      ensures StrLe(answers[i].0, answers[j].0) && answers[i].0 != answers[j].0
    {
      assert answers[i] in answers && answers[j] in answers;
      assert PairLe(answers[i], answers[j]) && answers[i] != answers[j];
    }
  }

  lemma SmallestExists(hits: set<RowKey>, key: RowKey) returns (best: RowKey)
    requires key in hits
    ensures best in SmallestPerCve(hits) && best.0 == key.0
  {
    StrOrder();
    var cpes := set k | k in hits && k.0 == key.0 :: k.1;
    assert key.1 in cpes;
    best := (key.0, Minimum(StrLe, cpes));
  }

  /** A CVE is reported exactly when one of its rows is a hit, and the entry is that of its smallest hit. */
  lemma LookupReportsHits(table: Table, component: string, version: string, cve: string)
    ensures Reports(Lookup(table, component, version), cve) <==>
            exists key :: key in Hits(table, component, version) && key.0 == cve
  {
    hide Hits;
    var hits := Hits(table, component, version);
    var entries := Lookup(table, component, version);
    var answers := Answers(hits);
    if i :| 0 <= i < |entries| && entries[i].cveId == cve {
      assert answers[i] in answers;
    }
    if key :| key in hits && key.0 == cve {
      var best := SmallestExists(hits, key);
      assert best in answers;
      var i :| 0 <= i < |answers| && answers[i] == best;
      assert entries[i].cveId == cve;
    }
  }

  /** An entry belongs to the answer exactly when its key is the smallest hit of its CVE. */
  lemma LookupEntries(table: Table, component: string, version: string, key: RowKey)
    requires key in table
    ensures EntryOf(table, key) in Lookup(table, component, version) <==>
            && key in Hits(table, component, version)
            && (forall other :: other in Hits(table, component, version) && other.0 == key.0 ==> StrLe(key.1, other.1))
  {
    hide Hits;
    var hits := Hits(table, component, version);
    var answers := Answers(hits);
    var entries := Lookup(table, component, version);
    if EntryOf(table, key) in entries {
      var i :| 0 <= i < |entries| && entries[i] == EntryOf(table, key);
      assert answers[i] in answers;
      assert answers[i] == key;
    }
    if key in SmallestPerCve(hits) {
      assert key in answers;
      var i :| 0 <= i < |answers| && answers[i] == key;
      assert entries[i] == EntryOf(table, key);
    }
  }

  /** The answers among the first `i` ordered rows have been chosen. */
  ghost predicate ChosenSoFar(hits: set<RowKey>, rows: seq<RowKey>, i: nat, chosen: seq<RowKey>)
    requires i <= |rows|
  {
    && Increasing(PairLe, chosen)
    && (forall key :: key in chosen ==> key in rows[..i] && key in SmallestPerCve(hits))
    && (forall key :: key in rows[..i] && key in hits ==> Answered(chosen, key.0))
  }

  ghost predicate Answered(chosen: seq<RowKey>, cve: string) {
    exists key :: key in chosen && key.0 == cve
  }

  lemma AnsweredNext(chosen: seq<RowKey>, key: RowKey)
    ensures forall cve :: Answered(chosen + [key], cve) <==> Answered(chosen, cve) || cve == key.0
  {
    assert forall k :: k in chosen + [key] <==> k in chosen || k == key;
    assert key in chosen + [key];
    forall cve | Answered(chosen, cve) ensures Answered(chosen + [key], cve) {
      var k :| k in chosen && k.0 == cve;
      assert k in chosen + [key];
    }
  }

  lemma ChooseNext(hits: set<RowKey>, rows: seq<RowKey>, i: nat, chosen: seq<RowKey>)
    requires i < |rows| && Increasing(PairLe, rows) && (forall key :: key in hits ==> key in rows)
    requires ChosenSoFar(hits, rows, i, chosen)
    requires rows[i] in hits && !Answered(chosen, rows[i].0)
    ensures ChosenSoFar(hits, rows, i + 1, chosen + [rows[i]])
  {
    StrOrder();
    var key := rows[i];
    var next := chosen + [key];
    assert rows[..i + 1] == rows[..i] + [key];
    assert forall m :: 0 <= m < i ==> rows[m] in rows[..i];
    forall other | other in hits && other.0 == key.0 ensures StrLe(key.1, other.1) {
      var j :| 0 <= j < |rows| && rows[j] == other;
      assert j >= i;
      assert j > i ==> PairLe(rows[i], rows[j]);
    }
    forall j | 0 <= j < |chosen| ensures PairLe(chosen[j], key) && chosen[j] != key {
      assert chosen[j] in chosen;
      var m :| 0 <= m < i && rows[m] == chosen[j];
      assert PairLe(rows[m], rows[i]);
    }
    assert key in next && forall k :: k in chosen ==> k in next;
  }

  lemma SkipNext(hits: set<RowKey>, rows: seq<RowKey>, i: nat, chosen: seq<RowKey>)
    requires i < |rows| && ChosenSoFar(hits, rows, i, chosen)
    requires rows[i] !in hits || Answered(chosen, rows[i].0)
    ensures ChosenSoFar(hits, rows, i + 1, chosen)
  {
    assert rows[..i + 1] == rows[..i] + [rows[i]];
  }

  /** What the loop of `lookup_sync` holds after `i` rows. */
  ghost predicate Collapsed(table: Table, hits: set<RowKey>, rows: seq<RowKey>, i: nat,
                            chosen: seq<RowKey>, entries: seq<CveEntry>, seen: set<string>)
    requires i <= |rows|
  {
    && ChosenSoFar(hits, rows, i, chosen)
    && (forall key :: key in chosen ==> key in table)
    && entries == EntriesOf(table, chosen)
    && (forall cve :: cve in seen <==> Answered(chosen, cve))
  }

  lemma CollapseOne(table: Table, hits: set<RowKey>, rows: seq<RowKey>, i: nat,
                    chosen: seq<RowKey>, entries: seq<CveEntry>, seen: set<string>)
    requires i < |rows| && Increasing(PairLe, rows) && (forall key :: key in hits ==> key in rows)
    requires Collapsed(table, hits, rows, i, chosen, entries, seen)
    requires rows[i] in hits && rows[i] in table && rows[i].0 !in seen
    ensures Collapsed(table, hits, rows, i + 1,
                      chosen + [rows[i]], entries + [EntryOf(table, rows[i])], seen + {rows[i].0})
  {
    ChooseNext(hits, rows, i, chosen);
    AnsweredNext(chosen, rows[i]);
    assert (chosen + [rows[i]])[..|chosen|] == chosen;
  }

  lemma AllChosen(hits: set<RowKey>, rows: seq<RowKey>, chosen: seq<RowKey>)
    requires forall key :: key in hits ==> key in rows
    requires ChosenSoFar(hits, rows, |rows|, chosen)
    ensures chosen == Answers(hits)
  {
    PairOrder();
    StrOrder();
    assert rows[..|rows|] == rows;
    var answers := Answers(hits);
    forall key ensures key in chosen <==> key in answers {
      if key in answers {
        var mine :| mine in chosen && mine.0 == key.0;
        assert mine == key;
      }
    }
    IncreasingUnique(PairLe, chosen, answers);
  }

  /** The rows of the cache query: WHERE the row is selected, ORDER BY cve_id, cpe_id. */
  function QueryRows(table: Table, component: string): (rows: seq<RowKey>)
    ensures Increasing(PairLe, rows)
    ensures forall key :: key in rows ==> key in table
  {
    SortedPairs(set key | key in table && Selected(key.1, table[key], component))
  }

  lemma QueryFindsHits(table: Table, component: string, version: string)
    requires Strip(component) != "" && Strip(version) != ""
    ensures var rows := QueryRows(table, component);
            && (forall key :: key in Hits(table, component, version) ==> key in rows)
            && forall key :: key in rows ==>
                 (key in Hits(table, component, version) <==> RowMatches(key.1, table[key], Normal(component), Strip(version)))
  {
  }

  /** The loop of `lookup_sync` over the ordered query rows. */
  method CollapseRows(table: Table, rows: seq<RowKey>, component: string, version: string)
    returns (entries: seq<CveEntry>)
    requires Strip(component) != "" && Strip(version) != ""
    requires rows == QueryRows(table, component)
    ensures entries == Lookup(table, component, version)
  {
    hide RowMatches, Hits, QueryRows, Lookup, Collapsed, EntryOf, StrLe;
    entries := [];
    var product := Normal(component);
    var wanted := Strip(version);
    var seen: set<string> := {};
    ghost var hits := Hits(table, component, version);
    ghost var chosen: seq<RowKey> := [];
    QueryFindsHits(table, component, version);
    CollapsedNothing(table, hits, rows);
    for i := 0 to |rows|
      invariant Collapsed(table, hits, rows, i, chosen, entries, seen)
    {
      var key := rows[i];
      assert key in rows;
      if key.0 !in seen && RowMatches(key.1, table[key], product, wanted) {
        CollapseOne(table, hits, rows, i, chosen, entries, seen);
        chosen := chosen + [key];
        entries := entries + [EntryOf(table, key)];
        seen := seen + {key.0};
      } else {
        CollapseSkip(table, hits, rows, i, chosen, entries, seen);
      }
    }
    CollapsedAll(table, rows, chosen, entries, seen, component, version);
  }

  lemma CollapsedNothing(table: Table, hits: set<RowKey>, rows: seq<RowKey>)
    ensures Collapsed(table, hits, rows, 0, [], [], {})
  {
  }

  lemma CollapseSkip(table: Table, hits: set<RowKey>, rows: seq<RowKey>, i: nat,
                     chosen: seq<RowKey>, entries: seq<CveEntry>, seen: set<string>)
    requires i < |rows| && Collapsed(table, hits, rows, i, chosen, entries, seen)
    requires rows[i] !in hits || rows[i].0 in seen
    ensures Collapsed(table, hits, rows, i + 1, chosen, entries, seen)
  {
    SkipNext(hits, rows, i, chosen);
  }

  lemma CollapsedAll(table: Table, rows: seq<RowKey>, chosen: seq<RowKey>, entries: seq<CveEntry>, seen: set<string>,
                     component: string, version: string)
    requires Collapsed(table, Hits(table, component, version), rows, |rows|, chosen, entries, seen)
    requires forall key :: key in Hits(table, component, version) ==> key in rows
    ensures entries == Lookup(table, component, version)
  {
    hide Hits;
    AllChosen(Hits(table, component, version), rows, chosen);
  }

  class EmbeddedCVEDatabase {
    var initialized: bool
    /** `PRAGMA user_version` and the rows of `cve_entries`, as the file holds them. */
    var userVersion: int
    var table: Table

    constructor (storedVersion: int, stored: Table)
      ensures !initialized && userVersion == storedVersion && table == stored
    {
      initialized := false;
      userVersion := storedVersion;
      table := stored;
    }

    /** A file with any other schema version is rebuilt empty. */
    method InitializeSync()
      modifies this
      ensures initialized && userVersion == SCHEMA_VERSION == 2
      ensures table == if old(userVersion) == 2 then old(table) else map[]
    {
      if userVersion != SCHEMA_VERSION {
        table := map[];
      }
      userVersion := SCHEMA_VERSION;
      initialized := true;
    }

    /** The rows a query sees: those of a current file, none of an outdated one. */
    ghost function Visible(): Table
      reads this
    {
      if initialized || userVersion == SCHEMA_VERSION then table else map[]
    }

    method LookupSync(component: string, version: string) returns (entries: seq<CveEntry>)
      modifies this
      ensures entries == Lookup(old(Visible()), component, version)
      ensures Visible() == old(Visible())
      ensures Strip(component) == "" || Strip(version) == "" ==> unchanged(this)
    {
      entries := [];
      if Strip(component) == "" || Strip(version) == "" {
        return;
      }
      if !initialized {
        InitializeSync();
      }
      assert table == old(Visible());
      PairOrder();
      var rows := QueryRows(table, component);
      entries := CollapseRows(table, rows, component, version);
    }
  }
}
