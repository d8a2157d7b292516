/** From one NVD response page to the rows it writes. */
module Records {
  import opened Options
  import opened Text
  import opened CveRecords
  import opened JsonValue
  import opened Cpe
  import opened Version
  import opened CveCache

  type Fields = map<string, Json>

  datatype SyncRecord = SyncRecord(
    cveId: string,
    cpeId: string,
    details: Details,
    product: Option<string>,
    bounds: VersionRange)

  // ---- Score and description ----

  function DescriptionIn(items: seq<Json>): string {
    if items == [] then ""
    else if items[0].Object? && Get(items[0].fields, "lang", Null) == Str("en") then
      Get(items[0].fields, "value", Str("")).Show()
    else DescriptionIn(items[1..])
  }

  function Description(cve: Fields): string {
    var items := Get(cve, "descriptions", List([]));
    if items.List? then DescriptionIn(items.items) else ""
  }

  function BaseScore(value: Json): Option<real> {
    var data := if value.Object? then Get(value.fields, "cvssData", Object(map[])) else Null;
    if data.Object? then Get(data.fields, "baseScore", Null).AsFloat() else None
  }

  function ScoreIn(values: seq<Json>): Option<real> {
    if values == [] then None
    else if BaseScore(values[0]).Some? then BaseScore(values[0])
    else ScoreIn(values[1..])
  }

  function Score(metrics: Fields, names: seq<string>): Option<real> {
    if names == [] then None
    else
      var values := Get(metrics, names[0], List([]));
      var score := if values.List? then ScoreIn(values.items) else None;
      if score.Some? then score else Score(metrics, names[1..])
  }

  function Cvss(cve: Fields): Option<real> {
    var metrics := Get(cve, "metrics", Object(map[]));
    if metrics.Object? then Score(metrics.fields, ["cvssMetricV40", "cvssMetricV31", "cvssMetricV30"]) else None
  }

  function DetailsOf(cve: Fields): Details {
    Details(Cvss(cve), Description(cve),
            Get(cve, "cisaExploitAdd", Null).Truthy() || Get(cve, "cisaActionDue", Null).Truthy())
  }

  // ---- What the score, the description and the flag are ----

  predicate IsEnglish(item: Json) {
    item.Object? && "lang" in item.fields && item.fields["lang"] == Str("en")
  }

  /** The description is that of the first English item, empty when there is none. */
  lemma {:induction false} DescriptionExactly(items: seq<Json>)
    ensures (forall i :: 0 <= i < |items| ==> !IsEnglish(items[i])) ==> DescriptionIn(items) == ""
    ensures forall i :: 0 <= i < |items| && IsEnglish(items[i]) && (forall j :: 0 <= j < i ==> !IsEnglish(items[j])) ==>
              DescriptionIn(items) == if "value" in items[i].fields then items[i].fields["value"].Show() else ""
  {
    if items != [] {
      DescriptionExactly(items[1..]);
      forall i | 0 < i < |items| && IsEnglish(items[i]) && (forall j :: 0 <= j < i ==> !IsEnglish(items[j]))
        ensures DescriptionIn(items) == if "value" in items[i].fields then items[i].fields["value"].Show() else ""
      {
        assert !IsEnglish(items[0]);
        assert items[1..][i - 1] == items[i];
        assert forall j :: 0 <= j < i - 1 ==> items[1..][j] == items[j + 1];
      }
    }
  }

  /** The value carries the base score `x`. */
  predicate HasScore(value: Json, x: real) {
    && value.Object? && "cvssData" in value.fields && value.fields["cvssData"].Object?
    && var data := value.fields["cvssData"].fields;
       "baseScore" in data &&
       match data["baseScore"]
       case Float(score) => x == score
       case Int(n) => x == n as real
       case Bool(b) => x == if b then 1.0 else 0.0
       case _ => false
  }

  predicate Scored(metrics: Fields, name: string, i: nat, x: real) {
    name in metrics && metrics[name].List? && i < |metrics[name].items| && HasScore(metrics[name].items[i], x)
  }

  lemma BaseScoreExactly(value: Json)
    ensures forall x :: BaseScore(value) == Some(x) <==> HasScore(value, x)
  {
  }

  lemma {:induction false} ScoreInExactly(values: seq<Json>) returns (i: nat)
    ensures match ScoreIn(values)
            case None => forall j, y :: 0 <= j < |values| ==> !HasScore(values[j], y)
            case Some(x) => i < |values| && HasScore(values[i], x) && forall j, y :: 0 <= j < i ==> !HasScore(values[j], y)
  {
    hide HasScore, BaseScore;
    i := 0;
    if values != [] {
      BaseScoreExactly(values[0]);
    }
    if values != [] && BaseScore(values[0]).None? {
      var k := ScoreInExactly(values[1..]);
      i := k + 1;
      assert forall j :: 0 < j < |values| ==> values[j] == values[1..][j - 1];
    }
  }

  lemma {:induction false} ScoreExactly(metrics: Fields, names: seq<string>) returns (m: nat, i: nat)
    ensures match Score(metrics, names)
            case None => forall k, j: nat, y :: 0 <= k < |names| ==> !Scored(metrics, names[k], j, y)
            case Some(x) =>
              && m < |names| && Scored(metrics, names[m], i, x)
              && (forall k, j: nat, y :: 0 <= k < m ==> !Scored(metrics, names[k], j, y))
              && (forall j: nat, y :: j < i ==> !Scored(metrics, names[m], j, y))
  {
    hide HasScore, ScoreIn;
    m, i := 0, 0;
    if names != [] {
      var values := Get(metrics, names[0], List([]));
      if values.List? {
        i := ScoreInExactly(values.items);
      }
      if !values.List? || ScoreIn(values.items).None? {
        var k, j := ScoreExactly(metrics, names[1..]);
        m, i := k + 1, j;
        assert forall k :: 0 < k < |names| ==> names[k] == names[1..][k - 1];
      }
    }
  }

  /** The score is the first one given: version 4.0 before 3.1 before 3.0, each list in order; nothing but these counts.
      The flag is set exactly by a true value under one of two members. */
  lemma DetailsExactly(cve: Fields) returns (m: nat, i: nat)
    ensures var names := ["cvssMetricV40", "cvssMetricV31", "cvssMetricV30"];
            var metrics := if "metrics" in cve && cve["metrics"].Object? then cve["metrics"].fields else map[];
            match DetailsOf(cve).cvss
            case None => forall k, j: nat, y :: 0 <= k < 3 ==> !Scored(metrics, names[k], j, y)
            case Some(x) =>
              && m < 3 && Scored(metrics, names[m], i, x)
              && (forall k, j: nat, y :: 0 <= k < m ==> !Scored(metrics, names[k], j, y))
              && (forall j: nat, y :: j < i ==> !Scored(metrics, names[m], j, y))
    ensures DetailsOf(cve).exploited <==>
            || ("cisaExploitAdd" in cve && !Falsy(cve["cisaExploitAdd"]))
            || ("cisaActionDue" in cve && !Falsy(cve["cisaActionDue"]))
    ensures DetailsOf(cve).description ==
            if "descriptions" in cve && cve["descriptions"].List? then DescriptionIn(cve["descriptions"].items) else ""
  {
    hide Scored, Falsy;
    var metrics := Get(cve, "metrics", Object(map[]));
    m, i := ScoreExactly(if metrics.Object? then metrics.fields else map[], ["cvssMetricV40", "cvssMetricV31", "cvssMetricV30"]);
    TruthyExactly(Get(cve, "cisaExploitAdd", Null));
    TruthyExactly(Get(cve, "cisaActionDue", Null));
  }

  // ---- cpeMatch objects at any depth ----

  predicate IsVulnerable(entry: Json) {
    && entry.Object?
    && Get(entry.fields, "vulnerable", Bool(true)).Truthy()
    && Get(entry.fields, "criteria", Null).Str?
  }

  type CpeMatch = m: Fields | Get(m, "criteria", Null).Str? witness map["criteria" := Str("")]

  function Vulnerable(entries: seq<Json>): seq<CpeMatch> {
    if entries == [] then []
    else (if IsVulnerable(entries[0]) then [entries[0].fields] else []) + Vulnerable(entries[1..])
  }

  function OwnMatches(fields: Fields): seq<CpeMatch> {
    var entries := Get(fields, "cpeMatch", List([]));
    if entries.List? then Vulnerable(entries.items) else []
  }

  /** Every vulnerable match below `value`: its own, then those of `nodes`, then those of `children`. */
  function CpeMatches(value: Json): seq<CpeMatch>
    decreases value
  {
    match value
    case Object(fields) =>
      OwnMatches(fields)
      + (if "nodes" in fields then CpeMatches(fields["nodes"]) else [])
      + (if "children" in fields then CpeMatches(fields["children"]) else [])
    case List(items) => MatchesInItems(items)
    case _ => []
  }

  function MatchesInItems(items: seq<Json>): seq<CpeMatch>
    decreases items
  {
    if items == [] then [] else CpeMatches(items[0]) + MatchesInItems(items[1..])
  }

  /** The `cpeMatch` loop of `_cpe_matches`. */
  method CollectOwn(entries: seq<Json>) returns (matches: seq<CpeMatch>)
    ensures matches == Vulnerable(entries)
  {
    matches := [];
    for i := 0 to |entries|
      invariant matches + Vulnerable(entries[i..]) == Vulnerable(entries)
    {
      assert entries[i..][1..] == entries[i + 1..];
      if IsVulnerable(entries[i]) {
        matches := matches + [entries[i].fields];
      }
    }
  }

  /** The recursion of `_cpe_matches`, appending to one list. */
  method CollectCpeMatches(value: Json) returns (matches: seq<CpeMatch>)
    ensures matches == CpeMatches(value)
    decreases value, 1
  {
    hide Vulnerable;
    matches := [];
    match value {
      case Object(fields) =>
        var entries := Get(fields, "cpeMatch", List([]));
        if entries.List? {
          matches := CollectOwn(entries.items);
        }
        assert matches == OwnMatches(fields);
        hide OwnMatches, MatchesInItems;
        if "nodes" in fields {
          var below := CollectCpeMatches(fields["nodes"]);
          matches := matches + below;
        }
        if "children" in fields {
          var below := CollectCpeMatches(fields["children"]);
          matches := matches + below;
        }
      case List(items) =>
        matches := CollectFromItems(items);
      case _ =>
    }
  }

  method CollectFromItems(items: seq<Json>) returns (matches: seq<CpeMatch>)
    ensures matches == MatchesInItems(items)
    decreases items, 0
  {
    hide CpeMatches;
    matches := [];
    for i := 0 to |items|
      invariant matches + MatchesInItems(items[i..]) == MatchesInItems(items)
    {
      var below := CollectCpeMatches(items[i]);
      assert items[i..][1..] == items[i + 1..];
      matches := matches + below;
    }
  }

  /** Read off the JSON: an object with a text under `criteria` that is not marked otherwise under `vulnerable`. */
  predicate Matchable(entry: Json) {
    && entry.Object?
    && "criteria" in entry.fields && entry.fields["criteria"].Str?
    && ("vulnerable" in entry.fields ==> !Falsy(entry.fields["vulnerable"]))
  }

  lemma VulnerableExactly(entry: Json)
    ensures IsVulnerable(entry) <==> Matchable(entry)
  {
    if entry.Object? {
      TruthyExactly(Get(entry.fields, "vulnerable", Bool(true)));
    }
  }

  /** One step down: into a list, or into a `nodes` or `children` member. */
  datatype Step = Item(index: nat) | Member(name: string)

  /** `entry` is a vulnerable element of the `cpeMatch` list of the object `path` leads to. */
  ghost predicate At(value: Json, path: seq<Step>, entry: CpeMatch) {
    if path == [] then
      && value.Object?
      && "cpeMatch" in value.fields && value.fields["cpeMatch"].List?
      && Object(entry) in value.fields["cpeMatch"].items
      && Matchable(Object(entry))
    else
      match path[0]
      case Item(i) => value.List? && i < |value.items| && At(value.items[i], path[1..], entry)
      case Member(name) =>
        && (name == "nodes" || name == "children")
        && value.Object? && name in value.fields
        && At(value.fields[name], path[1..], entry)
  }

  ghost predicate SomePathLeadsTo(value: Json, entry: CpeMatch) {
    exists path :: At(value, path, entry)
  }

  lemma {:induction false} VulnerableExact(entries: seq<Json>, entry: CpeMatch)
    ensures entry in Vulnerable(entries) <==> Object(entry) in entries && Matchable(Object(entry))
  {
    hide Matchable;
    VulnerableExactly(Object(entry));
    if entries != [] {
      VulnerableExact(entries[1..], entry);
      assert entries == [entries[0]] + entries[1..];
    }
  }

  /** Nothing nested is missed and nothing else is collected. */
  lemma {:induction false} CpeMatchesExact(value: Json, entry: CpeMatch)
    ensures entry in CpeMatches(value) <==> SomePathLeadsTo(value, entry)
  {
    if entry in CpeMatches(value) {
      var path := FoundAt(value, entry);
      assert SomePathLeadsTo(value, entry);
    }
    if path :| At(value, path, entry) {
      AtIsFound(value, path, entry);
    }
  }

  lemma {:induction false} FoundAt(value: Json, entry: CpeMatch) returns (path: seq<Step>)
    requires entry in CpeMatches(value)
    ensures At(value, path, entry)
    decreases value
  {
    path := [];
    match value {
      case Object(fields) =>
        if entry in OwnMatches(fields) {
          VulnerableExact(Get(fields, "cpeMatch", List([])).items, entry);
        } else {
          var name := if "nodes" in fields && entry in CpeMatches(fields["nodes"]) then "nodes" else "children";
          var below := FoundAt(fields[name], entry);
          path := [Member(name)] + below;
          assert path[1..] == below;
        }
      case List(items) =>
        var i := ItemWith(items, entry);
        var below := FoundAt(items[i], entry);
        path := [Item(i)] + below;
        assert path[1..] == below;
    }
  }

  lemma {:induction false} ItemWith(items: seq<Json>, entry: CpeMatch) returns (i: nat)
    requires entry in MatchesInItems(items)
    ensures i < |items| && entry in CpeMatches(items[i])
  {
    if entry in CpeMatches(items[0]) {
      i := 0;
    } else {
      var j := ItemWith(items[1..], entry);
      i := j + 1;
    }
  }

  lemma {:induction false} ItemIsFound(items: seq<Json>, i: nat, entry: CpeMatch)
    requires i < |items| && entry in CpeMatches(items[i])
    ensures entry in MatchesInItems(items)
  {
    if i > 0 {
      ItemIsFound(items[1..], i - 1, entry);
    }
  }

  lemma {:induction false} AtIsFound(value: Json, path: seq<Step>, entry: CpeMatch)
    requires At(value, path, entry)
    ensures entry in CpeMatches(value)
    decreases path
  {
    if path == [] {
      VulnerableExact(Get(value.fields, "cpeMatch", Null).items, entry);
    } else {
      match path[0] {
        case Item(i) =>
          AtIsFound(value.items[i], path[1..], entry);
          ItemIsFound(value.items, i, entry);
        case Member(name) =>
          AtIsFound(value.fields[name], path[1..], entry);
      }
    }
  }

  /** An object's own matches come first, then those below its nodes, then those below its children. */
  lemma ObjectInOrder(fields: Fields)
    requires "nodes" in fields && "children" in fields
    ensures CpeMatches(Object(fields)) ==
            CpeMatches(Object(fields - {"nodes", "children"})) + CpeMatches(fields["nodes"]) + CpeMatches(fields["children"])
  {
    hide Vulnerable;
    var own := fields - {"nodes", "children"};
    assert "cpeMatch" !in {"nodes", "children"};
    assert OwnMatches(own) == OwnMatches(fields);
    assert CpeMatches(Object(own)) == OwnMatches(own) + [] + [];
  }

  /** A list is read from front to back. */
  lemma ListInOrder(a: seq<Json>, b: seq<Json>)
    ensures CpeMatches(List(a + b)) == CpeMatches(List(a)) + CpeMatches(List(b))
  {
    hide OwnMatches, MatchesInItems;
    ItemsInOrder(a, b);
  }

  lemma {:induction false} ItemsInOrder(a: seq<Json>, b: seq<Json>)
    ensures MatchesInItems(a + b) == MatchesInItems(a) + MatchesInItems(b)
    decreases |a|
  {
    hide CpeMatches;
    if a == [] {
      assert a + b == b;
    } else {
      assert (a + b)[1..] == a[1..] + b;
      ItemsInOrder(a[1..], b);
    }
  }

  // ---- Records ----

  /** A vulnerable match of a page, with the CVE it was found under. */
  datatype Occurrence = Occurrence(cveId: string, details: Details, entry: CpeMatch) {
    function Criteria(): string {
      Get(entry, "criteria", Null).s
    }

    function Key(): RowKey {
      (cveId, Criteria())
    }
  }

  function OptionalText(entry: Fields, key: string): Option<string> {
    var value := Get(entry, key, Null);
    if value.Str? && Strip(value.s) != "" then Some(value.s) else None
  }

  function BoundsOf(entry: Fields): VersionRange {
    VersionRange(OptionalText(entry, "versionStartIncluding"), OptionalText(entry, "versionStartExcluding"),
                 OptionalText(entry, "versionEndIncluding"), OptionalText(entry, "versionEndExcluding"))
  }

  /** The entry carries a text that is not blank. */
  predicate Carries(entry: Fields, key: string, text: string) {
    key in entry && entry[key] == Str(text) && Strip(text) != ""
  }

  lemma BoundsExactly(entry: Fields, b: string)
    ensures BoundsOf(entry).startIncluding == Some(b) <==> Carries(entry, "versionStartIncluding", b)
    ensures BoundsOf(entry).startExcluding == Some(b) <==> Carries(entry, "versionStartExcluding", b)
    ensures BoundsOf(entry).endIncluding == Some(b) <==> Carries(entry, "versionEndIncluding", b)
    ensures BoundsOf(entry).endExcluding == Some(b) <==> Carries(entry, "versionEndExcluding", b)
  {
  }

  /** Whether a CPE names `component`, and its parsed product. */
  function IsComponent(criteria: string, component: string): (bool, Option<string>) {
    var parsed := ParseCpe(criteria);
    if parsed.Some? then (parsed.value.product == component, Some(parsed.value.product))
    else (Contains(Lower(criteria), ":" + component + ":"), None)
  }

  function RecordOf(occ: Occurrence, product: Option<string>): SyncRecord {
    SyncRecord(occ.cveId, occ.Criteria(), occ.details, product, BoundsOf(occ.entry))
  }

  /** The records kept for `component`, in page order. */
  function Kept(occs: seq<Occurrence>, component: string): seq<SyncRecord> {
    if occs == [] then []
    else
      var occ := occs[|occs| - 1];
      var (belongs, product) := IsComponent(occ.Criteria(), component);
      Kept(occs[..|occs| - 1], component) + if belongs then [RecordOf(occ, product)] else []
  }

  function Tagged(cveId: string, details: Details, matches: seq<CpeMatch>): seq<Occurrence> {
    seq(|matches|, i requires 0 <= i < |matches| => Occurrence(cveId, details, matches[i]))
  }

  /** The normalised identifier of a `vulnerabilities` item, empty when the item is skipped. */
  function CveIdOf(item: Json): string {
    if !item.Object? || !Get(item.fields, "cve", Null).Object? then ""
    else NormalCve(Get(Get(item.fields, "cve", Null).fields, "id", Str("")).Show())
  }

  function ItemOccurrences(item: Json): seq<Occurrence> {
    if CveIdOf(item) == "" then []
    else
      var cve := Get(item.fields, "cve", Null).fields;
      Tagged(CveIdOf(item), DetailsOf(cve), CpeMatches(Get(cve, "configurations", List([]))))
  }

  function OccurrencesIn(items: seq<Json>): seq<Occurrence> {
    if items == [] then []
    else OccurrencesIn(items[..|items| - 1]) + ItemOccurrences(items[|items| - 1])
  }

  /** All vulnerable matches of a page, whatever product they name; a malformed page is a failure. */
  function PageOccurrences(payload: Json): Result<seq<Occurrence>> {
    if !payload.Object? then Failure
    else
      var items := Get(payload.fields, "vulnerabilities", List([]));
      if items.List? then Success(OccurrencesIn(items.items)) else Failure
  }

  /** Read off the JSON: the item has an identifier, and some path below its configurations leads to the match. */
  ghost predicate Holds(item: Json, occ: Occurrence) {
    && item.Object? && "cve" in item.fields && item.fields["cve"].Object?
    && var cve := item.fields["cve"].fields;
       && "id" in cve && occ.cveId == NormalCve(cve["id"].Show()) && occ.cveId != ""
       && "configurations" in cve && SomePathLeadsTo(cve["configurations"], occ.entry)
       && occ.details == DetailsOf(cve)
  }

  lemma ItemExactly(item: Json, occ: Occurrence)
    ensures occ in ItemOccurrences(item) <==> Holds(item, occ)
  {
    hide SomePathLeadsTo, DetailsOf, CpeMatches, NormalCve;
    NoIdentifier();
    NothingBelow();
    if CveIdOf(item) != "" {
      var cve := item.fields["cve"].fields;
      var configurations := Get(cve, "configurations", List([]));
      TaggedExactly(CveIdOf(item), DetailsOf(cve), CpeMatches(configurations), occ);
      CpeMatchesExact(configurations, occ.entry);
      assert occ.entry in CpeMatches(configurations) ==> "configurations" in cve;
    }
  }

  lemma TaggedExactly(cveId: string, details: Details, matches: seq<CpeMatch>, occ: Occurrence)
    ensures occ in Tagged(cveId, details, matches) <==> occ.cveId == cveId && occ.details == details && occ.entry in matches
  {
    var tagged := Tagged(cveId, details, matches);
    if occ.cveId == cveId && occ.details == details && occ.entry in matches {
      var i :| 0 <= i < |matches| && matches[i] == occ.entry;
      assert tagged[i] == occ;
    }
  }

  lemma NoIdentifier()
    ensures NormalCve(Str("").Show()) == ""
  {
  }

  lemma NothingBelow()
    ensures CpeMatches(List([])) == []
  {
  }

  lemma {:induction false} OccurrencesExact(items: seq<Json>, occ: Occurrence)
    ensures occ in OccurrencesIn(items) <==> exists i :: 0 <= i < |items| && Holds(items[i], occ)
  {
    hide Holds, ItemOccurrences;
    if items != [] {
      var n := |items| - 1;
      OccurrencesExact(items[..n], occ);
      ItemExactly(items[n], occ);
      assert forall i :: 0 <= i < n ==> items[..n][i] == items[i];
    }
  }

  /** Items are read from front to back. */
  lemma {:induction false} OccurrencesInOrder(a: seq<Json>, b: seq<Json>)
    ensures OccurrencesIn(a + b) == OccurrencesIn(a) + OccurrencesIn(b)
  {
    hide ItemOccurrences;
    if b == [] {
      assert a + b == a;
    } else {
      assert (a + b)[..|a + b| - 1] == a + b[..|b| - 1];
      OccurrencesInOrder(a, b[..|b| - 1]);
    }
  }

  /** A page is malformed exactly when it is no object or has something else than a list under `vulnerabilities`;
      otherwise it holds exactly the matches that some path of some identified item leads to. */
  lemma PageExactly(payload: Json, occ: Occurrence)
    ensures PageOccurrences(payload).Failure? <==>
            !payload.Object? || ("vulnerabilities" in payload.fields && !payload.fields["vulnerabilities"].List?)
    ensures PageOccurrences(payload).Success? ==>
              (occ in PageOccurrences(payload).value <==>
                 "vulnerabilities" in payload.fields &&
                 exists i :: 0 <= i < |payload.fields["vulnerabilities"].items| && Holds(payload.fields["vulnerabilities"].items[i], occ))
  {
    hide Holds, OccurrencesIn;
    if PageOccurrences(payload).Success? {
      var items := Get(payload.fields, "vulnerabilities", List([])).items;
      OccurrencesExact(items, occ);
    }
  }

  function PageRecords(payload: Json, component: string): Result<seq<SyncRecord>> {
    if PageOccurrences(payload).Success? then Success(Kept(PageOccurrences(payload).value, component)) else Failure
  }

  lemma {:induction false} KeptConcat(a: seq<Occurrence>, b: seq<Occurrence>, component: string)
    ensures Kept(a + b, component) == Kept(a, component) + Kept(b, component)
  {
    hide IsComponent, RecordOf;
    if b == [] {
      assert a + b == a;
    } else {
      assert (a + b)[..|a + b| - 1] == a + b[..|b| - 1];
      KeptConcat(a, b[..|b| - 1], component);
    }
  }

  /** The nested loops of `_records`. */
  method BuildRecords(payload: Json, component: string) returns (r: Result<seq<SyncRecord>>)
    ensures r == PageRecords(payload, component)
  {
    if !payload.Object? {
      return Failure;
    }
    var vulnerabilities := Get(payload.fields, "vulnerabilities", List([]));
    if !vulnerabilities.List? {
      return Failure;
    }
    var records := RecordsOfItems(vulnerabilities.items, component);
    r := Success(records);
  }

  lemma KeptItem(items: seq<Json>, i: nat, component: string)
    requires i < |items|
    ensures Kept(OccurrencesIn(items[..i + 1]), component) ==
            Kept(OccurrencesIn(items[..i]), component) + Kept(ItemOccurrences(items[i]), component)
  {
    assert items[..i + 1][..i] == items[..i];
    KeptConcat(OccurrencesIn(items[..i]), ItemOccurrences(items[i]), component);
  }

  method RecordsOfItems(items: seq<Json>, component: string) returns (records: seq<SyncRecord>)
    ensures records == Kept(OccurrencesIn(items), component)
  {
    records := [];
    for i := 0 to |items|
      invariant records == Kept(OccurrencesIn(items[..i]), component)
    {
      KeptItem(items, i, component);
      var found := ItemRecords(items[i], component);
      records := records + found;
    }
    assert items[..|items|] == items;
  }

  method ItemRecords(item: Json, component: string) returns (records: seq<SyncRecord>)
    ensures records == Kept(ItemOccurrences(item), component)
  {
    hide DetailsOf, IsComponent, CpeMatches;
    records := [];
    if !item.Object? {
      return;
    }
    var cve := Get(item.fields, "cve", Null);
    if !cve.Object? {
      return;
    }
    var cveId := NormalCve(Get(cve.fields, "id", Str("")).Show());
    if cveId == "" {
      return;
    }
    var details := DetailsOf(cve.fields);
    var matches := CollectCpeMatches(Get(cve.fields, "configurations", List([])));
    ghost var occs := Tagged(cveId, details, matches);
    for i := 0 to |matches|
      invariant records == Kept(occs[..i], component)
    {
      var criteria := Get(matches[i], "criteria", Null).s;
      var (belongs, product) := IsComponent(criteria, component);
      assert occs[..i + 1][..i] == occs[..i];
      if belongs {
        records := records + [SyncRecord(cveId, criteria, details, product, BoundsOf(matches[i]))];
      }
    }
    assert occs[..|matches|] == occs;
  }

  // ---- Upsert ----

  function RowOf(record: SyncRecord): Row {
    Row(record.details, record.product, record.bounds)
  }

  /** Executing the upsert for each record in turn. */
  function UpsertAll(table: Table, records: seq<SyncRecord>): Table {
    if records == [] then table
    else
      var last := records[|records| - 1];
      UpsertAll(table, records[..|records| - 1])[(last.cveId, last.cpeId) := RowOf(last)]
  }

  /** Rows of any other (CVE, CPE) pair are left alone, and nothing is ever removed. */
  lemma {:induction false} UpsertFrame(table: Table, records: seq<SyncRecord>, key: RowKey)
    requires forall r :: r in records ==> (r.cveId, r.cpeId) != key
    ensures key in UpsertAll(table, records) <==> key in table
    ensures key in table ==> UpsertAll(table, records)[key] == table[key]
  {
    if records != [] {
      UpsertFrame(table, records[..|records| - 1], key);
      assert records[|records| - 1] in records;
    }
  }

  /** The row of a written pair is that of its last record, whatever the table held before. */
  lemma {:induction false} UpsertLast(table: Table, records: seq<SyncRecord>, i: nat)
    requires i < |records|
    requires forall j :: i < j < |records| ==> (records[j].cveId, records[j].cpeId) != (records[i].cveId, records[i].cpeId)
    ensures var key := (records[i].cveId, records[i].cpeId);
            key in UpsertAll(table, records) && UpsertAll(table, records)[key] == RowOf(records[i])
  {
    if i < |records| - 1 {
      UpsertLast(table, records[..|records| - 1], i);
    }
  }

  lemma {:induction false} LastRecordFor(records: seq<SyncRecord>, key: RowKey) returns (i: nat)
    requires exists r :: r in records && (r.cveId, r.cpeId) == key
    ensures i < |records| && (records[i].cveId, records[i].cpeId) == key
    ensures forall j :: i < j < |records| ==> (records[j].cveId, records[j].cpeId) != key
  {
    var n := |records| - 1;
    if (records[n].cveId, records[n].cpeId) == key {
      i := n;
    } else {
      var r :| r in records && (r.cveId, r.cpeId) == key;
      assert r in records[..n];
      i := LastRecordFor(records[..n], key);
    }
  }

  /** Writing the same records again changes nothing. */
  lemma UpsertTwice(table: Table, records: seq<SyncRecord>)
    ensures UpsertAll(UpsertAll(table, records), records) == UpsertAll(table, records)
  {
    var once := UpsertAll(table, records);
    var twice := UpsertAll(once, records);
    forall key
      ensures key in twice <==> key in once
      ensures key in once ==> twice[key] == once[key]
    {
      if exists r :: r in records && (r.cveId, r.cpeId) == key {
        var i := LastRecordFor(records, key);
        UpsertLast(table, records, i);
        UpsertLast(once, records, i);
      } else {
        UpsertFrame(once, records, key);
      }
    }
  }
}
