/** The cache answers exactly as direct evaluation over the downloaded pages would. */
module Agreement {
  import opened Options
  import opened Text
  import opened CveRecords
  import opened JsonValue
  import opened Cpe
  import opened Version
  import opened CveCache
  import opened Records

  /** One request made for `component`: its page, or nothing when the request failed. */
  datatype Event = Event(component: string, page: Option<Json>)

  /** A failed or malformed page writes nothing; any other writes its records. */
  function ApplyEvent(table: Table, event: Event): Table {
    if event.page.None? || PageRecords(event.page.value, event.component).Failure? then table
    else UpsertAll(table, PageRecords(event.page.value, event.component).value)
  }

  function ApplyRun(table: Table, events: seq<Event>): Table {
    if events == [] then table
    else ApplyEvent(ApplyRun(table, events[..|events| - 1]), events[|events| - 1])
  }

  // ---- Direct evaluation over the pages ----

  /** The vulnerable matches of the pages stored for `component`, in the order they arrived. */
  function Downloaded(events: seq<Event>, component: string): seq<Occurrence> {
    if events == [] then []
    else
      var last := events[|events| - 1];
      Downloaded(events[..|events| - 1], component) +
      if last.component == component && last.page.Some? && PageOccurrences(last.page.value).Success?
      then PageOccurrences(last.page.value).value else []
  }

  /** No later match repeats the (CVE, criteria) pair of match `i`. */
  predicate IsLastWrite(occs: seq<Occurrence>, i: nat)
    requires i < |occs|
  {
    forall j | i < j < |occs| :: occs[j].Key() != occs[i].Key()
  }

  function RangeOf(entry: Fields): Option<VersionRange> {
    if BoundsOf(entry).IsBounded() then Some(BoundsOf(entry)) else None
  }

  /** The match names the product and covers the version. */
  predicate Affects(occ: Occurrence, component: string, version: string) {
    var parsed := ParseCpe(occ.Criteria());
    && parsed.Some?
    && parsed.value.product == component
    && MatchesVersion(parsed.value.version, version, RangeOf(occ.entry))
  }

  ghost predicate Affected(occs: seq<Occurrence>, component: string, version: string, cve: string) {
    exists i :: 0 <= i < |occs| && occs[i].cveId == cve && IsLastWrite(occs, i) && Affects(occs[i], component, version)
  }

  /** Some bound is given. */
  ghost predicate HasBound(entry: Fields) {
    exists key, b ::
      key in {"versionStartIncluding", "versionStartExcluding", "versionEndIncluding", "versionEndExcluding"} &&
      Carries(entry, key, b)
  }

  /** The version keeps every bound given. */
  ghost predicate KeepsAll(entry: Fields, version: string) {
    && (forall b :: Carries(entry, "versionStartIncluding", b) ==> Compare(b, version) <= 0)
    && (forall b :: Carries(entry, "versionStartExcluding", b) ==> Compare(b, version) < 0)
    && (forall b :: Carries(entry, "versionEndIncluding", b) ==> Compare(version, b) <= 0)
    && (forall b :: Carries(entry, "versionEndExcluding", b) ==> Compare(version, b) < 0)
  }

  /** Read off the JSON of a match whose CPE has version attribute `field`. */
  ghost predicate Covers(entry: Fields, field: string, version: string) {
    && Strip(version) != ""
    && (|| (!IsWild(field) && Compare(field, version) == 0)
        || (HasBound(entry) && KeepsAll(entry, version)))
  }

  lemma BoundedExactly(entry: Fields, version: string)
    ensures BoundsOf(entry).IsBounded() <==> HasBound(entry)
    ensures KeepsBounds(BoundsOf(entry), version) <==> KeepsAll(entry, version)
  {
    hide OptionalText, Carries, Compare, BoundsOf;
    var r := BoundsOf(entry);
    forall b
      ensures r.startIncluding == Some(b) <==> Carries(entry, "versionStartIncluding", b)
      ensures r.startExcluding == Some(b) <==> Carries(entry, "versionStartExcluding", b)
      ensures r.endIncluding == Some(b) <==> Carries(entry, "versionEndIncluding", b)
      ensures r.endExcluding == Some(b) <==> Carries(entry, "versionEndExcluding", b)
    {
      BoundsExactly(entry, b);
    }
    if r.startIncluding.Some? { assert Carries(entry, "versionStartIncluding", r.startIncluding.value); }
    if r.startExcluding.Some? { assert Carries(entry, "versionStartExcluding", r.startExcluding.value); }
    if r.endIncluding.Some? { assert Carries(entry, "versionEndIncluding", r.endIncluding.value); }
    if r.endExcluding.Some? { assert Carries(entry, "versionEndExcluding", r.endExcluding.value); }
  }

  /** A match affects a version exactly when its CPE has the product, and its version attribute or its bounds cover it. */
  lemma AffectsExactly(occ: Occurrence, component: string, version: string)
    ensures Affects(occ, component, version) <==>
            var cpe := ParseCpe(occ.Criteria());
            cpe.Some? && cpe.value.product == component && Covers(occ.entry, cpe.value.version, version)
  {
    hide ParseCpe, MatchesVersion, IsWild, HasBound, KeepsAll, KeepsBounds, BoundsOf, VersionKey;
    var cpe := ParseCpe(occ.Criteria());
    if cpe.Some? {
      MatchesExactly(cpe.value.version, version, RangeOf(occ.entry));
      BoundedExactly(occ.entry, version);
      EqualKeys(cpe.value.version, version);
    }
  }

  lemma EqualKeys(a: string, b: string)
    ensures Compare(a, b) == 0 <==> VersionKey(a) == VersionKey(b)
  {
    CompareIsPreorder(a, b, b);
  }

  // ---- What the table holds ----

  function ProductOf(cpe: string): Option<string> {
    if ParseCpe(cpe).Some? then Some(ParseCpe(cpe).value.product) else None
  }

  function StoredAt(table: Table, key: RowKey): Option<Row> {
    if key in table then Some(table[key]) else None
  }

  function RowFor(occ: Occurrence): Row {
    Row(occ.details, ProductOf(occ.Criteria()), BoundsOf(occ.entry))
  }

  /** The row the last of `occs` with this key writes. */
  function Written(occs: seq<Occurrence>, key: RowKey): Option<Row> {
    if occs == [] then None
    else
      var last := occs[|occs| - 1];
      if last.Key() == key then Some(RowFor(last)) else Written(occs[..|occs| - 1], key)
  }

  lemma {:induction false} WrittenConcat(a: seq<Occurrence>, b: seq<Occurrence>, key: RowKey)
    ensures Written(a + b, key) == if Written(b, key).Some? then Written(b, key) else Written(a, key)
  {
    if b == [] {
      assert a + b == a;
    } else {
      assert (a + b)[..|a + b| - 1] == a + b[..|b| - 1];
      WrittenConcat(a, b[..|b| - 1], key);
    }
  }

  lemma {:induction false} WrittenIsLast(occs: seq<Occurrence>, i: nat)
    requires i < |occs| && IsLastWrite(occs, i)
    ensures Written(occs, occs[i].Key()) == Some(RowFor(occs[i]))
  {
    hide RowFor;
    var n := |occs| - 1;
    if i < n {
      assert forall j :: i < j < n ==> occs[..n][j] == occs[j];
      WrittenIsLast(occs[..n], i);
    }
  }

  lemma {:induction false} LastWriter(occs: seq<Occurrence>, key: RowKey) returns (i: nat)
    requires Written(occs, key).Some?
    ensures i < |occs| && occs[i].Key() == key && IsLastWrite(occs, i)
  {
    hide RowFor;
    var n := |occs| - 1;
    if occs[n].Key() == key {
      i := n;
    } else {
      i := LastWriter(occs[..n], key);
      assert forall j :: i < j < n ==> occs[..n][j] == occs[j];
    }
  }

  /** The CPE has this product; one that does not parse has the name between two colons of its lower-case text. */
  predicate Names(criteria: string, component: string) {
    if ProductOf(criteria).Some? then ProductOf(criteria).value == component
    else Contains(Lower(criteria), ":" + component + ":")
  }

  lemma NamesExactly(criteria: string, component: string)
    ensures IsComponent(criteria, component) == (Names(criteria, component), ProductOf(criteria))
  {
    hide Contains;
  }

  /** One more match of a page: its row is written when it belongs, and nothing else happens. */
  lemma PageStep(table: Table, occs: seq<Occurrence>, component: string)
    requires occs != []
    ensures var occ := occs[|occs| - 1];
            var before := UpsertAll(table, Kept(occs[..|occs| - 1], component));
            UpsertAll(table, Kept(occs, component)) ==
            if Names(occ.Criteria(), component) then before[occ.Key() := RowFor(occ)] else before
  {
    var occ := occs[|occs| - 1];
    var records := Kept(occs[..|occs| - 1], component);
    var (belongs, product) := IsComponent(occ.Criteria(), component);
    NamesExactly(occ.Criteria(), component);
    if belongs {
      var last := RecordOf(occ, product);
      assert (records + [last])[..|records|] == records;
    } else {
      assert records + [] == records;
    }
  }

  /** A page stored for `component` sets exactly the rows whose CPE names it; all other rows are left alone. */
  lemma {:induction false} PageWrites(table: Table, occs: seq<Occurrence>, component: string, key: RowKey)
    ensures StoredAt(UpsertAll(table, Kept(occs, component)), key) ==
            if Names(key.1, component) && Written(occs, key).Some? then Written(occs, key) else StoredAt(table, key)
  {
    hide Names, RowFor;
    if occs != [] {
      var occ := occs[|occs| - 1];
      PageWrites(table, occs[..|occs| - 1], component, key);
      PageStep(table, occs, component);
      assert occ.Key() == key ==> occ.Criteria() == key.1;
    }
  }

  /** After any run, the row at a parseable CPE is that of the last match downloaded for the product it names,
      and what it was before the run when there is none. */
  lemma {:induction false} RunWrites(table: Table, events: seq<Event>, component: string, key: RowKey)
    requires ProductOf(key.1) == Some(component)
    ensures var written := Written(Downloaded(events, component), key);
            StoredAt(ApplyRun(table, events), key) == if written.Some? then written else StoredAt(table, key)
  {
    hide ParseCpe, Kept, UpsertAll, PageOccurrences;
    if events != [] {
      var last := events[|events| - 1];
      var before := events[..|events| - 1];
      RunWrites(table, before, component, key);
      if last.page.Some? && PageOccurrences(last.page.value).Success? {
        var occs := PageOccurrences(last.page.value).value;
        PageWrites(ApplyRun(table, before), occs, last.component, key);
        WrittenConcat(Downloaded(before, component), occs, key);
      }
      assert Downloaded(before, component) + [] == Downloaded(before, component);
    }
  }

  /** In every row, the product column is the product its CPE names, null when the CPE does not parse. */
  ghost predicate ProductsParsed(table: Table) {
    forall key :: key in table ==> table[key].product == ProductOf(key.1)
  }

  lemma {:induction false} UpsertKeepsProducts(table: Table, occs: seq<Occurrence>, component: string)
    requires ProductsParsed(table)
    ensures ProductsParsed(UpsertAll(table, Kept(occs, component)))
  {
    if occs != [] {
      UpsertKeepsProducts(table, occs[..|occs| - 1], component);
      PageStep(table, occs, component);
    }
  }

  lemma {:induction false} RunKeepsProducts(table: Table, events: seq<Event>)
    requires ProductsParsed(table)
    ensures ProductsParsed(ApplyRun(table, events))
  {
    if events != [] {
      var last := events[|events| - 1];
      var before := events[..|events| - 1];
      RunKeepsProducts(table, before);
      if last.page.Some? && PageOccurrences(last.page.value).Success? {
        UpsertKeepsProducts(ApplyRun(table, before), PageOccurrences(last.page.value).value, last.component);
      }
    }
  }

  // ---- The agreement ----

  /** A row written by a sync is a hit exactly when its CPE names the component and covers the version. */
  lemma SyncedRowHits(table: Table, key: RowKey, component: string, version: string)
    requires ProductsParsed(table) && key in table
    ensures key in Hits(table, component, version) <==>
            && Normal(component) != ""
            && ProductOf(key.1) == Some(Normal(component))
            && MatchesVersion(ParseCpe(key.1).value.version, version, RowRange(table[key]))
  {
    hide ParseCpe;
    NormalTwice(component);
    StripTwice(version);
    if ProductOf(key.1) == Some(Normal(component)) {
      assert Selected(key.1, table[key], component);
    }
  }

  /** A row of `table` names the product and covers the version, and no match downloaded for it has its key. */
  ghost predicate Survives(table: Table, occs: seq<Occurrence>, component: string, version: string, key: RowKey) {
    && key in table
    && ProductOf(key.1) == Some(component)
    && MatchesVersion(ParseCpe(key.1).value.version, version, RowRange(table[key]))
    && forall i :: 0 <= i < |occs| ==> occs[i].Key() != key
  }

  lemma {:induction false} NotWritten(occs: seq<Occurrence>, key: RowKey)
    ensures Written(occs, key).None? <==> forall i :: 0 <= i < |occs| ==> occs[i].Key() != key
  {
    if occs != [] {
      var n := |occs| - 1;
      NotWritten(occs[..n], key);
      assert forall i :: 0 <= i < n ==> occs[..n][i] == occs[i];
    }
  }

  lemma HitIsAffected(table: Table, events: seq<Event>, component: string, version: string, key: RowKey)
    requires ProductsParsed(table)
    requires key in Hits(ApplyRun(table, events), component, version)
    ensures Normal(component) != ""
    ensures var name := Normal(component); var occs := Downloaded(events, name);
            Affected(occs, name, version, key.0) || Survives(table, occs, name, version, key)
  {
    var name := Normal(component);
    var occs := Downloaded(events, name);
    RunKeepsProducts(table, events);
    SyncedRowHits(ApplyRun(table, events), key, component, version);
    RunWrites(table, events, name, key);
    NotWritten(occs, key);
    if Written(occs, key).Some? {
      var i := LastWriter(occs, key);
      WrittenIsLast(occs, i);
      assert Affects(occs[i], name, version);
    }
  }

  lemma AffectedIsHit(table: Table, events: seq<Event>, component: string, version: string, i: nat)
    requires ProductsParsed(table) && Normal(component) != ""
    requires var occs := Downloaded(events, Normal(component));
             i < |occs| && IsLastWrite(occs, i) && Affects(occs[i], Normal(component), version)
    ensures Downloaded(events, Normal(component))[i].Key() in Hits(ApplyRun(table, events), component, version)
  {
    var occs := Downloaded(events, Normal(component));
    RunKeepsProducts(table, events);
    WrittenIsLast(occs, i);
    RunWrites(table, events, Normal(component), occs[i].Key());
    SyncedRowHits(ApplyRun(table, events), occs[i].Key(), component, version);
  }

  lemma SurvivorIsHit(table: Table, events: seq<Event>, component: string, version: string, key: RowKey)
    requires ProductsParsed(table) && Normal(component) != ""
    requires Survives(table, Downloaded(events, Normal(component)), Normal(component), version, key)
    ensures key in Hits(ApplyRun(table, events), component, version)
  {
    RunKeepsProducts(table, events);
    NotWritten(Downloaded(events, Normal(component)), key);
    RunWrites(table, events, Normal(component), key);
    SyncedRowHits(ApplyRun(table, events), key, component, version);
  }

  /** After any sequence of successful, failed and malformed pages for any components, over a cache left by earlier
      runs, `lookup_sync` reports a CVE exactly when the component name is not blank and either some vulnerable match
      downloaded for that name, last written for its (CVE, criteria) pair, names it as its product and covers the
      version, or a row from before that does so was not written again. */
  lemma ResyncAgreesWithPages(table: Table, events: seq<Event>, component: string, version: string, cve: string)
    requires ProductsParsed(table)
    ensures var name := Normal(component); var occs := Downloaded(events, name);
            Reports(Lookup(ApplyRun(table, events), component, version), cve) <==>
            && name != ""
            && (Affected(occs, name, version, cve) || exists key :: Survives(table, occs, name, version, key) && key.0 == cve)
  {
    hide Affects, Hits, ApplyRun, Downloaded, Survives;
    var name := Normal(component);
    var occs := Downloaded(events, name);
    LookupReportsHits(ApplyRun(table, events), component, version, cve);
    if key :| key in Hits(ApplyRun(table, events), component, version) && key.0 == cve {
      HitIsAffected(table, events, component, version, key);
    }
    if name != "" {
      if i :| 0 <= i < |occs| && occs[i].cveId == cve && IsLastWrite(occs, i) && Affects(occs[i], name, version) {
        AffectedIsHit(table, events, component, version, i);
      }
      if key :| Survives(table, occs, name, version, key) && key.0 == cve {
        SurvivorIsHit(table, events, component, version, key);
      }
    }
  }

  /** From an empty table, only the downloaded matches count. */
  lemma LookupAgreesWithPages(events: seq<Event>, component: string, version: string, cve: string)
    ensures var name := Normal(component);
            Reports(Lookup(ApplyRun(map[], events), component, version), cve) <==>
            name != "" && Affected(Downloaded(events, name), name, version, cve)
  {
    hide Affected, Downloaded, ApplyRun, Lookup, Reports;
    ResyncAgreesWithPages(map[], events, component, version, cve);
  }

  /** And the entry it reports carries the details and range of that last write. */
  lemma LookupCarriesLastWrite(table: Table, events: seq<Event>, component: string, i: nat)
    requires var occs := Downloaded(events, component);
             i < |occs| && IsLastWrite(occs, i) && ProductOf(occs[i].Criteria()) == Some(component)
    ensures var after := ApplyRun(table, events);
            var occ := Downloaded(events, component)[i];
            occ.Key() in after &&
            EntryOf(after, occ.Key()) ==
              CveEntry(occ.cveId, occ.Criteria(), occ.details, Some(component), RangeOf(occ.entry))
  {
    var occs := Downloaded(events, component);
    WrittenIsLast(occs, i);
    RunWrites(table, events, component, occs[i].Key());
  }

  // ---- The prefilter on synced rows ----

  /** Every product column holds a name in normal form, or null. */
  ghost predicate ProductsNormal(table: Table) {
    forall key :: key in table && table[key].product.Some? ==> table[key].product.value == Normal(table[key].product.value)
  }

  lemma {:induction false} UpsertKeepsNormal(table: Table, occs: seq<Occurrence>, component: string)
    requires ProductsNormal(table) && component == Normal(component)
    ensures ProductsNormal(UpsertAll(table, Kept(occs, component)))
  {
    hide IsComponent, Normal;
    if occs != [] {
      var occ := occs[|occs| - 1];
      UpsertKeepsNormal(table, occs[..|occs| - 1], component);
      PageStep(table, occs, component);
      }
  }

  lemma {:induction false} RunKeepsNormal(table: Table, events: seq<Event>)
    requires ProductsNormal(table)
    requires forall e :: e in events ==> e.component == Normal(e.component)
    ensures ProductsNormal(ApplyRun(table, events))
  {
    hide Normal;
    if events != [] {
      var last := events[|events| - 1];
      var before := events[..|events| - 1];
      assert last in events;
      RunKeepsNormal(table, before);
      if last.page.Some? && PageOccurrences(last.page.value).Success? {
        UpsertKeepsNormal(ApplyRun(table, before), PageOccurrences(last.page.value).value, last.component);
      }
    }
  }

  /** Of the rows a sync writes, those that match but are not selected are exactly the ones whose product is not in
      normal form. */
  lemma SyncedPrefilterExact(table: Table, key: RowKey, component: string, version: string)
    requires ProductsParsed(table) && key in table && Normal(component) != ""
    requires RowMatches(key.1, table[key], Normal(component), version)
    ensures Selected(key.1, table[key], component) <==> ProductOf(key.1).Some? && Trimmed(ProductOf(key.1).value)
  {
    hide ParseCpe, MatchesVersion, Contains, Trimmed;
    var product := ProductOf(key.1).value;
    PrefilterExact(key.1, table[key], component, version);
    ParsedIsLower(key.1);
    LowerKeepsTrimmed(product);
  }

  lemma LowerKeepsTrimmed(product: string)
    requires Lower(product) == product
    ensures Trimmed(product) <==> product == Normal(product)
  {
    if Trimmed(product) {
      TrimmedStrip(product);
    }
    if product == Normal(product) {
      var i, j := StripSlice(product);
    }
  }

  /** With normal component names, the prefilter loses no row of any run over a cache left by such runs. */
  lemma SyncLosesNothing(table: Table, events: seq<Event>, key: RowKey, component: string, version: string)
    requires ProductsParsed(table) && ProductsNormal(table)
    requires forall e :: e in events ==> e.component == Normal(e.component)
    requires var after := ApplyRun(table, events);
             key in after && Normal(component) != "" && RowMatches(key.1, after[key], Normal(component), version)
    ensures Selected(key.1, ApplyRun(table, events)[key], component)
  {
    hide ApplyRun, Normal, MatchesVersion, ParseCpe;
    RunKeepsProducts(table, events);
    RunKeepsNormal(table, events);
    PrefilterExact(key.1, ApplyRun(table, events)[key], component, version);
  }

  const PADDED_CPE := "cpe:2.3:a:v: b :1"

  /** One request for the name " b ", answered by a match of that product. */
  function PaddedRun(): seq<Event> {
    [Event(" b ", Some(SinglePage("C", Single(PADDED_CPE))))]
  }

  /** A component name with blanks around it defeats it: this run stores a row that matches `b` and is never selected. */
  lemma PaddedSyncIsLost() returns (row: Row)
    ensures StoredAt(ApplyRun(map[], PaddedRun()), ("C", PADDED_CPE)) == Some(row)
    ensures RowMatches(PADDED_CPE, row, Normal("b"), "1") && !Selected(PADDED_CPE, row, "b")
  {
    hide ParseCpe, PageOccurrences, ApplyRun, SinglePage, Downloaded, Strip, Lower, Selected, Contains;
    var entry := Single(PADDED_CPE);
    var page := SinglePage("C", entry);
    PaddedParse();
    LowerLiterals();
    assert Upper("C") == "C";
    TrimmedStrip("C");
    SingleOccurrence("C", entry);
    var occ := PageOccurrences(page).value[0];
    OnePage(" b ", page);
    WrittenIsLast([occ], 0);
    RunWrites(map[], PaddedRun(), " b ", ("C", PADDED_CPE));
    row := RowFor(occ);
    TrimmedStrip("b");
    TrimmedStrip("1");
    assert " " + "b" + " " == " b ";
    StripPadded(" ", "b", " ");
    PrefilterExact(PADDED_CPE, row, "b", "1");
  }

  // ---- One page, end to end ----

  /** A page with one CVE whose one match sits under a node. */
  function SinglePage(cve: string, entry: CpeMatch): Json {
    var node := Object(map["cpeMatch" := List([Object(entry)])]);
    var configuration := Object(map["nodes" := List([node])]);
    var item := Object(map["id" := Str(cve), "configurations" := List([configuration])]);
    Object(map["vulnerabilities" := List([Object(map["cve" := item])])])
  }

  lemma MatchesOfOne(value: Json)
    ensures CpeMatches(List([value])) == CpeMatches(value)
  {
    hide OwnMatches;
    assert [value][1..] == [];
    assert MatchesInItems([value]) == CpeMatches(value) + [];
  }

  lemma SingleMatches(entry: CpeMatch)
    ensures CpeMatches(List([Object(map["nodes" := List([Object(map["cpeMatch" := List([Object(entry)])])])])])) ==
            if Matchable(Object(entry)) then [entry] else []
  {
    hide Matchable, IsVulnerable;
    VulnerableExactly(Object(entry));
    var node := Object(map["cpeMatch" := List([Object(entry)])]);
    var configuration := Object(map["nodes" := List([node])]);
    MatchesOfOne(configuration);
    MatchesOfOne(node);
    assert [Object(entry)][1..] == [];
    assert OwnMatches(node.fields) == if Matchable(Object(entry)) then [entry] else [];
    assert CpeMatches(node) == OwnMatches(node.fields);
  }

  lemma SingleOccurrence(cve: string, entry: CpeMatch)
    requires cve == NormalCve(cve) && cve != ""
    ensures var occs := PageOccurrences(SinglePage(cve, entry));
            && occs.Success?
            && (!Matchable(Object(entry)) ==> occs.value == [])
            && (Matchable(Object(entry)) ==> |occs.value| == 1 && occs.value[0].cveId == cve && occs.value[0].entry == entry)
  {
    hide CpeMatches, DetailsOf, Strip, Upper, Matchable;
    SingleMatches(entry);
    var items := SinglePage(cve, entry).fields["vulnerabilities"].items;
    assert items[..0] == [];
    assert CveIdOf(items[0]) == cve;
    assert OccurrencesIn(items) == [] + ItemOccurrences(items[0]);
  }

  lemma OnePage(component: string, page: Json)
    requires PageOccurrences(page).Success?
    ensures Downloaded([Event(component, Some(page))], component) == PageOccurrences(page).value
  {
    hide PageOccurrences;
    assert [Event(component, Some(page))][..0] == [];
  }

  lemma OnlyOne(occs: seq<Occurrence>, component: string, version: string, cve: string)
    requires |occs| == 1
    ensures Affected(occs, component, version, cve) <==> occs[0].cveId == cve && Affects(occs[0], component, version)
  {
    hide Affects;
    assert IsLastWrite(occs, 0);
  }

  /** Syncing one match of a component from an empty cache, end to end on the JSON: the CVE is reported exactly when
      the match is not marked otherwise under `vulnerable`, and its CPE version or its bounds cover the version. */
  lemma SingleMatchIsReported(component: string, cve: string, entry: CpeMatch, version: string)
    requires component == Normal(component) && component != ""
    requires cve == NormalCve(cve) && cve != ""
    requires ProductOf(entry["criteria"].s) == Some(component)
    ensures var events := [Event(component, Some(SinglePage(cve, entry)))];
            Reports(Lookup(ApplyRun(map[], events), component, version), cve) <==>
            && ("vulnerable" in entry ==> !Falsy(entry["vulnerable"]))
            && Covers(entry, ParseCpe(entry["criteria"].s).value.version, version)
  {
    hide PageOccurrences, ApplyRun, Lookup, Reports, SinglePage, ParseCpe, Strip, Upper, Affects, Downloaded, Covers, Falsy;
    var page := SinglePage(cve, entry);
    SingleOccurrence(cve, entry);
    var occs := PageOccurrences(page).value;
    OnePage(component, page);
    LookupAgreesWithPages([Event(component, Some(page))], component, version, cve);
    if Matchable(Object(entry)) {
      AffectsExactly(occs[0], component, version);
      OnlyOne(occs, component, version, cve);
    }
  }

  function Single(criteria: string): CpeMatch {
    map["criteria" := Str(criteria)]
  }

  function Ranged(criteria: string, start: string, end: string): CpeMatch {
    map["criteria" := Str(criteria), "versionStartIncluding" := Str(start), "versionEndExcluding" := Str(end)]
  }

  lemma SingleHasNoBound(criteria: string)
    ensures !HasBound(Single(criteria))
  {
  }

  lemma RangedHasBounds(criteria: string, start: string, end: string, version: string)
    requires Strip(start) != "" && Strip(end) != ""
    ensures HasBound(Ranged(criteria, start, end))
    ensures KeepsAll(Ranged(criteria, start, end), version) <==> Compare(start, version) <= 0 && Compare(version, end) < 0
  {
    hide Strip, Compare;
    assert Carries(Ranged(criteria, start, end), "versionStartIncluding", start);
    assert Carries(Ranged(criteria, start, end), "versionEndExcluding", end);
  }

  /** Without bounds, a match for a literal version is reported exactly for the nonblank versions equal to it, and one
      for `*` or `-` never. */
  lemma UnboundedMatchIsReported(component: string, cve: string, criteria: string, version: string)
    requires component == Normal(component) && component != ""
    requires cve == NormalCve(cve) && cve != "" && ProductOf(criteria) == Some(component)
    ensures var events := [Event(component, Some(SinglePage(cve, Single(criteria))))];
            var field := ParseCpe(criteria).value.version;
            Reports(Lookup(ApplyRun(map[], events), component, version), cve) <==>
            Strip(version) != "" && Strip(field) !in {"*", "-", ""} && Compare(field, version) == 0
  {
    hide ApplyRun, Lookup, Reports, SinglePage, ParseCpe, HasBound, KeepsAll, Compare, Strip;
    SingleMatchIsReported(component, cve, Single(criteria), version);
    SingleHasNoBound(criteria);
  }

  /** With a start and an end, a match is reported exactly for the nonblank versions equal to a literal CPE version, and
      for those from the start on and below the end. */
  lemma RangedMatchIsReported(component: string, cve: string, criteria: string, start: string, end: string, version: string)
    requires component == Normal(component) && component != ""
    requires cve == NormalCve(cve) && cve != "" && ProductOf(criteria) == Some(component)
    requires Strip(start) != "" && Strip(end) != ""
    ensures var events := [Event(component, Some(SinglePage(cve, Ranged(criteria, start, end))))];
            var field := ParseCpe(criteria).value.version;
            Reports(Lookup(ApplyRun(map[], events), component, version), cve) <==>
            && Strip(version) != ""
            && (|| (Strip(field) !in {"*", "-", ""} && Compare(field, version) == 0)
                || (Compare(start, version) <= 0 && Compare(version, end) < 0))
  {
    hide ApplyRun, Lookup, Reports, SinglePage, ParseCpe, HasBound, KeepsAll, Compare, Strip;
    SingleMatchIsReported(component, cve, Ranged(criteria, start, end), version);
    RangedHasBounds(criteria, start, end, version);
  }

  /** A match marked as not vulnerable reports nothing, whatever else it says. */
  lemma MarkedMatchIsSilent(component: string, cve: string, entry: CpeMatch, mark: Json, version: string)
    requires component == Normal(component) && component != ""
    requires cve == NormalCve(cve) && cve != "" && ProductOf(entry["criteria"].s) == Some(component)
    requires mark in {Bool(false), Null, Int(0), Str("")} && "vulnerable" in entry && entry["vulnerable"] == mark
    ensures !Reports(Lookup(ApplyRun(map[], [Event(component, Some(SinglePage(cve, entry)))]), component, version), cve)
  {
    hide ApplyRun, Lookup, Reports, SinglePage, ParseCpe, Covers, Strip;
    SingleMatchIsReported(component, cve, entry, version);
  }
}
