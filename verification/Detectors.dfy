/** Collapsing the detections of one filesystem to the strongest evidence per component. */
module Detectors {
  import opened Text
  import opened JsonValue
  import opened Ordering
  import opened Components

  const DETECTOR_PRIORITY: map<string, nat> := map[
    "manifest" := 4,
    "opkg" := 3,
    "dpkg" := 3,
    "python-dist-info" := 3,
    "node-package-json" := 3,
    "os-release" := 2,
    "binary" := 1
  ]

  function Priority(c: Component): nat {
    var detector := c.ExtraText("detector");
    if detector in DETECTOR_PRIORITY then DETECTOR_PRIORITY[detector] else 0
  }

  /** What a losing detection is cited as: its evidence, or failing that its detector. */
  function Label(c: Component): string {
    if c.ExtraText("evidence") != "" then c.ExtraText("evidence") else c.ExtraText("detector")
  }

  function Citation(c: Component): string {
    Label(c) + "=" + c.version
  }

  /** The ranking of the evidence: a manifest above package databases, these above the release file, it above binaries,
      and everything above an unknown detector. */
  lemma PriorityExactly(c: Component)
    ensures var detector := c.ExtraText("detector");
            Priority(c) == if detector == "manifest" then 4
                           else if detector == "opkg" || detector == "dpkg" || detector == "python-dist-info" || detector == "node-package-json" then 3
                           else if detector == "os-release" then 2
                           else if detector == "binary" then 1
                           else 0
  {
  }

  /** A detection is cited by its evidence, or by its detector when it has none, followed by its version. */
  lemma CitationExactly(c: Component, evidence: string, detector: string)
    requires if "evidence" in c.extra then c.extra["evidence"] == Str(evidence) else evidence == ""
    requires if "detector" in c.extra then c.extra["detector"] == Str(detector) else detector == ""
    ensures Label(c) == if evidence != "" then evidence else detector
    ensures Citation(c) == (if evidence != "" then evidence else detector) + "=" + c.version
  {
  }

  /** The record kept so far for one name, and the disagreements cited so far. */
  datatype Standing = Standing(winner: Component, conflicts: seq<string>)

  function Meet(standing: Standing, c: Component): Standing {
    var current := standing.winner;
    var (loser, winner) := if Priority(c) > Priority(current) then (current, c) else (c, current);
    Standing(winner, standing.conflicts + if Label(loser) != "" && loser.version != winner.version then [Citation(loser)] else [])
  }

  /** All detections of one name met in turn. */
  function StandingOf(detections: seq<Component>): Standing
    requires detections != []
  {
    if |detections| == 1 then Standing(detections[0], [])
    else Meet(StandingOf(detections[..|detections| - 1]), detections[|detections| - 1])
  }

  /** The kept record, listing the disagreements if there are any. */
  function Finish(standing: Standing): Component {
    if standing.conflicts == [] then standing.winner
    else
      standing.winner.(extra := standing.winner.extra["also_detected_by" := Listing(set t | t in standing.conflicts)])
  }

  function NonemptyKeys(components: seq<Component>): set<string> {
    Keys(components) - {""}
  }

  function MergedFor(components: seq<Component>, key: string): Component
    requires key in NonemptyKeys(components)
  {
    assert exists c :: c in components && c.Key() == key;
    Finish(StandingOf(Named(components, key)))
  }

  /** The whole merge: one record per nonempty name, in name order. */
  function Merged(components: seq<Component>): (r: seq<Component>) {
    var keys := SortedTexts(NonemptyKeys(components));
    seq(|keys|, i requires 0 <= i < |keys| => assert keys[i] in keys; MergedFor(components, keys[i]))
  }

  /** The standing of every name met so far. */
  ghost predicate Tracks(components: seq<Component>, standings: map<string, Standing>) {
    && standings.Keys == NonemptyKeys(components)
    && forall key :: key in standings ==> TracksOne(components, key, standings[key])
  }

  ghost predicate TracksOne(components: seq<Component>, key: string, standing: Standing) {
    Named(components, key) != [] && StandingOf(Named(components, key)) == standing
  }

  function Next(standings: map<string, Standing>, c: Component): map<string, Standing> {
    if c.Key() == "" then standings
    else if c.Key() !in standings then standings[c.Key() := Standing(c, [])]
    else standings[c.Key() := Meet(standings[c.Key()], c)]
  }

  lemma KeysNext(components: seq<Component>, c: Component)
    ensures NonemptyKeys(components + [c]) == NonemptyKeys(components) + if c.Key() == "" then {} else {c.Key()}
  {
    hide Named;
    var next := components + [c];
    assert c in next;
    assert forall d :: d in next <==> d in components || d == c;
  }

  lemma StandingNext(components: seq<Component>, key: string, standing: Standing, c: Component)
    requires TracksOne(components, key, standing)
    ensures TracksOne(components + [c], key, if c.Key() == key then Meet(standing, c) else standing)
  {
    hide Meet, Named;
    var mine := Named(components, key);
    NamedNext(components, c, key);
    assert (mine + [c])[..|mine|] == mine;
    assert mine + [] == mine;
  }

  lemma StandingNew(components: seq<Component>, c: Component)
    requires c.Key() !in Keys(components)
    ensures TracksOne(components + [c], c.Key(), Standing(c, []))
  {
    assert forall d :: d in components ==> d.Key() in Keys(components);
    NamedNone(components, c.Key());
    NamedNext(components, c, c.Key());
  }

  lemma TracksNext(components: seq<Component>, standings: map<string, Standing>, c: Component)
    requires Tracks(components, standings)
    ensures Tracks(components + [c], Next(standings, c))
  {
    hide Meet, TracksOne, NonemptyKeys, Keys, Named;
    var next := Next(standings, c);
    KeysNext(components, c);
    NoBlankKey(components);
    forall key | key in next ensures TracksOne(components + [c], key, next[key]) {
      if key in standings {
        StandingNext(components, key, standings[key], c);
      } else {
        NewKey(components, c);
        StandingNew(components, c);
      }
    }
  }

  lemma NoBlankKey(components: seq<Component>)
    ensures "" !in NonemptyKeys(components)
  {
    hide Keys;
  }

  lemma NewKey(components: seq<Component>, c: Component)
    requires c.Key() != "" && c.Key() !in NonemptyKeys(components)
    ensures c.Key() !in Keys(components)
  {
    hide Keys;
  }

  /** `best` and `others` are the two halves of the standings. */
  ghost predicate Halves(standings: map<string, Standing>, best: map<string, Component>, others: map<string, seq<string>>) {
    && best.Keys == standings.Keys && others.Keys == standings.Keys
    && forall key :: key in standings ==> standings[key] == Standing(best[key], others[key])
  }

  /** The loops of `merge_components`. */
  method MergeComponents(components: seq<Component>) returns (merged: seq<Component>)
    ensures merged == Merged(components)
  {
    hide Tracks, Label, Priority, Merged;
    var best: map<string, Component> := map[];
    var others: map<string, seq<string>> := map[];
    ghost var standings: map<string, Standing> := map[];
    TracksNothing();
    for i := 0 to |components|
      invariant Tracks(components[..i], standings) && Halves(standings, best, others)
    {
      var component := components[i];
      assert components[..i + 1] == components[..i] + [component];
      TracksNext(components[..i], standings, component);
      standings := Next(standings, component);
      var key := component.Key();
      if key == "" {
        continue;
      }
      if key !in best {
        best := best[key := component];
        others := others[key := []];
        continue;
      }
      var current := best[key];
      var loser, winner := component, current;
      if Priority(component) > Priority(current) {
        loser, winner := current, component;
      }
      best := best[key := winner];
      if Label(loser) != "" && loser.version != winner.version {
        others := others[key := others[key] + [Citation(loser)]];
      } else {
        assert others[key] + [] == others[key];
      }
    }
    assert components[..|components|] == components;
    merged := FinishAll(components, standings, best, others);
  }

  lemma TracksNothing()
    ensures Tracks([], map[])
  {
  }

  lemma TrackedIsMerged(components: seq<Component>, standings: map<string, Standing>, merged: seq<Component>)
    requires Tracks(components, standings)
    requires var keys := SortedTexts(standings.Keys);
             |merged| == |keys| && forall i :: 0 <= i < |keys| ==> keys[i] in standings && merged[i] == Finish(standings[keys[i]])
    ensures merged == Merged(components)
  {
    hide Finish;
    var keys := SortedTexts(standings.Keys);
    forall i | 0 <= i < |keys| ensures merged[i] == Merged(components)[i] {
      assert TracksOne(components, keys[i], standings[keys[i]]);
    }
  }

  method FinishAll(ghost components: seq<Component>, ghost standings: map<string, Standing>,
                   best: map<string, Component>, others: map<string, seq<string>>) returns (merged: seq<Component>)
    requires Tracks(components, standings) && Halves(standings, best, others)
    ensures merged == Merged(components)
  {
    hide Finish, Tracks, Merged;
    var keys := SortedTexts(best.Keys);
    merged := [];
    for i := 0 to |keys|
      invariant |merged| == i
      invariant forall j :: 0 <= j < i ==> keys[j] in standings && merged[j] == Finish(standings[keys[j]])
    {
      var key := keys[i];
      assert key in keys;
      merged := merged + [Finish(Standing(best[key], others[key]))];
    }
    TrackedIsMerged(components, standings, merged);
  }

  // ---- What the merge promises ----

  /** The kept record is the earliest of the greatest-priority detections. */
  ghost predicate IsEarliestGreatest(detections: seq<Component>, w: nat) {
    && w < |detections|
    && (forall j :: 0 <= j < |detections| ==> Priority(detections[j]) <= Priority(detections[w]))
    && (forall j :: 0 <= j < w ==> Priority(detections[j]) < Priority(detections[w]))
  }

  lemma {:induction false} WinnerIsEarliestGreatest(detections: seq<Component>) returns (w: nat)
    requires detections != []
    ensures IsEarliestGreatest(detections, w) && StandingOf(detections).winner == detections[w]
  {
    hide Priority, Label;
    var n := |detections| - 1;
    if n == 0 {
      w := 0;
    } else {
      var before := detections[..n];
      w := WinnerIsEarliestGreatest(before);
      assert forall j :: 0 <= j < n ==> before[j] == detections[j];
      if Priority(detections[n]) > Priority(before[w]) {
        w := n;
      }
    }
  }

  // ---- Which disagreements are cited ----

  /** Every earlier detection has a smaller priority, so this one was kept for a while. */
  ghost predicate Leads(detections: seq<Component>, m: nat)
    requires m < |detections|
  {
    forall j :: 0 <= j < m ==> Priority(detections[j]) < Priority(detections[m])
  }

  /** Detection `m` gives way to detection `b`: a detection once kept gives way to the first later one of greater
      priority, any other to the earliest of the greatest before it. */
  ghost predicate LosesTo(detections: seq<Component>, m: nat, b: nat)
    requires m < |detections|
  {
    if Leads(detections, m) then
      && m < b < |detections|
      && Priority(detections[b]) > Priority(detections[m])
      && forall j :: m < j < b ==> Priority(detections[j]) <= Priority(detections[m])
    else IsEarliestGreatest(detections[..m], b)
  }

  /** Detection `m` gives way to a detection of another version. */
  ghost predicate Contested(detections: seq<Component>, m: nat)
    requires m < |detections|
  {
    exists b :: 0 <= b < |detections| && LosesTo(detections, m, b) && detections[b].version != detections[m].version
  }

  ghost predicate Cited(detections: seq<Component>, m: nat) {
    m < |detections| && Contested(detections, m) && Label(detections[m]) != ""
  }

  /** The text is the citation of a cited detection. */
  ghost predicate CitedAs(detections: seq<Component>, t: string) {
    exists m :: 0 <= m < |detections| && Cited(detections, m) && Citation(detections[m]) == t
  }

  lemma LosesNext(detections: seq<Component>, w: nat, m: nat, b: nat)
    requires m < |detections| - 1 && b < |detections|
    requires IsEarliestGreatest(detections[..|detections| - 1], w)
    ensures var n := |detections| - 1;
            LosesTo(detections, m, b) <==>
              if b < n then LosesTo(detections[..n], m, b) else m == w && Priority(detections[n]) > Priority(detections[w])
  {
    hide Priority;
    var n := |detections| - 1;
    var before := detections[..n];
    assert forall j :: 0 <= j < n ==> before[j] == detections[j];
    assert before[..m] == detections[..m];
    assert before[w] == detections[w];
    assert Leads(before, m) == Leads(detections, m);
  }

  /** One more detection: it is contested itself, or it makes the kept one contested, when their versions differ. */
  lemma ContestedNext(detections: seq<Component>, w: nat, m: nat)
    requires |detections| > 1 && m < |detections|
    requires IsEarliestGreatest(detections[..|detections| - 1], w)
    ensures var n := |detections| - 1; var replaced := Priority(detections[n]) > Priority(detections[w]);
            Contested(detections, m) <==>
              || (m < n && Contested(detections[..n], m))
              || (m == (if replaced then w else n) && detections[n].version != detections[w].version)
  {
    hide Priority, LosesTo;
    var n := |detections| - 1;
    var before := detections[..n];
    assert forall j :: 0 <= j < n ==> before[j] == detections[j];
    if m < n {
      forall b | 0 <= b <= n
        ensures LosesTo(detections, m, b) <==>
                  if b < n then LosesTo(before, m, b) else m == w && Priority(detections[n]) > Priority(detections[w])
      {
        LosesNext(detections, w, m, b);
      }
      if m == w && Priority(detections[n]) > Priority(detections[w]) {
        assert LosesTo(detections, m, n);
      }
      if Contested(before, m) {
        var b :| 0 <= b < n && LosesTo(before, m, b) && before[b].version != before[m].version;
        assert LosesTo(detections, m, b);
      }
    } else {
      forall b | 0 <= b <= n
        ensures LosesTo(detections, n, b) <==> b == w && Priority(detections[n]) <= Priority(detections[w])
      {
        LastLoses(detections, w, b);
      }
      if Priority(detections[n]) <= Priority(detections[w]) {
        assert LosesTo(detections, n, w);
      }
    }
  }

  lemma LastLoses(detections: seq<Component>, w: nat, b: nat)
    requires |detections| > 1 && b < |detections|
    requires IsEarliestGreatest(detections[..|detections| - 1], w)
    ensures var n := |detections| - 1;
            LosesTo(detections, n, b) <==> b == w && Priority(detections[n]) <= Priority(detections[w])
  {
    hide Priority;
    var n := |detections| - 1;
    var before := detections[..n];
    assert forall j :: 0 <= j < n ==> before[j] == detections[j];
    assert before[w] == detections[w];
  }

  lemma NoneContested(detections: seq<Component>, m: nat)
    requires |detections| == 1 && m == 0
    ensures !Contested(detections, m)
  {
  }

  /** The record that gives way when one more detection is met. */
  function Loser(detections: seq<Component>, w: nat): (m: nat)
    requires w < |detections|
  {
    if Priority(detections[|detections| - 1]) > Priority(detections[w]) then w else |detections| - 1
  }

  lemma CitedNext(detections: seq<Component>, w: nat, t: string)
    requires |detections| > 1 && IsEarliestGreatest(detections[..|detections| - 1], w)
    ensures var n := |detections| - 1; var lost := Loser(detections, w);
            CitedAs(detections, t) <==>
              || CitedAs(detections[..n], t)
              || (detections[n].version != detections[w].version && Label(detections[lost]) != "" && Citation(detections[lost]) == t)
  {
    hide Priority, Label, Citation, Contested;
    var n := |detections| - 1;
    var before := detections[..n];
    var lost := Loser(detections, w);
    assert forall j :: 0 <= j < n ==> before[j] == detections[j];
    ContestedNext(detections, w, lost);
    if CitedAs(detections, t) {
      var m :| 0 <= m <= n && Cited(detections, m) && Citation(detections[m]) == t;
      ContestedNext(detections, w, m);
      assert m < n && Contested(before, m) ==> Cited(before, m);
    }
    if CitedAs(before, t) {
      var m :| 0 <= m < n && Cited(before, m) && Citation(before[m]) == t;
      ContestedNext(detections, w, m);
      assert Cited(detections, m);
    }
    if detections[n].version != detections[w].version && Label(detections[lost]) != "" && Citation(detections[lost]) == t {
      assert Cited(detections, lost);
    }
  }

  /** The citations are those of exactly the labelled detections that gave way to another version. */
  lemma {:induction false} CitationsExact(detections: seq<Component>, t: string)
    requires detections != []
    ensures t in StandingOf(detections).conflicts <==> CitedAs(detections, t)
  {
    hide Priority, Label, Citation, Contested;
    var n := |detections| - 1;
    if n == 0 {
      NoneContested(detections, 0);
    } else {
      var before := detections[..n];
      CitationsExact(before, t);
      var w := WinnerIsEarliestGreatest(before);
      CitedNext(detections, w, t);
    }
  }

  /** A version other than the kept one gave way to another version somewhere. */
  lemma {:induction false} LostVersionIsContested(detections: seq<Component>, j: nat) returns (m: nat)
    requires j < |detections| && detections[j].version != StandingOf(detections).winner.version
    ensures m < |detections| && Contested(detections, m) && detections[m].version == detections[j].version
  {
    hide Priority, Label, Citation, Contested;
    var n := |detections| - 1;
    var before := detections[..n];
    var w := WinnerIsEarliestGreatest(before);
    if j < n && before[j].version != before[w].version {
      m := LostVersionIsContested(before, j);
    } else {
      m := Loser(detections, w);
    }
    ContestedNext(detections, w, m);
  }

  /** One record per nonempty name, in strict name order. */
  lemma MergedNames(components: seq<Component>)
    ensures var merged := Merged(components); var names := SortedTexts(NonemptyKeys(components));
            |merged| == |names| && forall i :: 0 <= i < |merged| ==> merged[i].Key() == names[i]
  {
    hide MergedFor, NonemptyKeys, Normal;
    var names := SortedTexts(NonemptyKeys(components));
    forall i | 0 <= i < |names| ensures Merged(components)[i].Key() == names[i] {
      assert names[i] in names;
      MergedForKey(components, names[i]);
    }
  }

  lemma MergedForKey(components: seq<Component>, key: string)
    requires key in NonemptyKeys(components)
    ensures MergedFor(components, key).Key() == key
  {
    hide Normal, Priority, StandingOf, Listing;
    var mine := Named(components, key);
    assert exists c :: c in components && c.Key() == key;
    var w := WinnerIsEarliestGreatest(mine);
    assert mine[w] in mine;
  }

  /** Something is cited. */
  ghost predicate Disputed(detections: seq<Component>) {
    exists t :: CitedAs(detections, t)
  }

  /** The record merged for a name: the earliest greatest-priority detection, in everything but the
      `also_detected_by` list, which holds, sorted and once each, exactly the citations. */
  lemma MergedRecord(components: seq<Component>, key: string) returns (w: nat)
    requires key in NonemptyKeys(components)
    ensures var mine := Named(components, key); var record := MergedFor(components, key);
            && IsEarliestGreatest(mine, w)
            && record == mine[w].(extra := record.extra)
            && (!Disputed(mine) ==> record.extra == mine[w].extra)
            && (Disputed(mine) ==>
                  exists cited :: Increasing(StrLe, cited) && (forall t :: t in cited <==> CitedAs(mine, t)) &&
                                  record.extra == mine[w].extra["also_detected_by" := Texts(cited)])
  {
    hide Priority, Named, CitedAs;
    var mine := Named(components, key);
    w := WinnerIsEarliestGreatest(mine);
    var conflicts := StandingOf(mine).conflicts;
    forall t ensures t in conflicts <==> CitedAs(mine, t) {
      CitationsExact(mine, t);
    }
    if conflicts != [] {
      var cited := SortedTexts(set t | t in conflicts);
      assert conflicts[0] in conflicts;
      assert MergedFor(components, key).extra == mine[w].extra["also_detected_by" := Texts(cited)];
    }
  }

  predicate Lists(record: Component, citation: string) {
    var cited := Get(record.extra, "also_detected_by", Null);
    cited.List? && Str(citation) in cited.items
  }

  /** The merged record lists exactly the citations, or what its winner listed already when nothing is cited. */
  lemma ListedExactly(components: seq<Component>, key: string, citation: string) returns (w: nat)
    requires key in NonemptyKeys(components)
    ensures var mine := Named(components, key);
            && IsEarliestGreatest(mine, w)
            && MergedFor(components, key).version == mine[w].version
            && (Lists(MergedFor(components, key), citation) <==>
                  if Disputed(mine) then CitedAs(mine, citation) else Lists(mine[w], citation))
  {
    hide Priority, Named, CitedAs, Disputed, MergedFor, NonemptyKeys;
    var mine := Named(components, key);
    w := MergedRecord(components, key);
    if Disputed(mine) {
      var cited :| Increasing(StrLe, cited) && (forall t :: t in cited <==> CitedAs(mine, t)) &&
                   MergedFor(components, key).extra == mine[w].extra["also_detected_by" := Texts(cited)];
      TextsHold(cited, citation);
    }
  }

  /** The version is the kept record's, or a detection of the name with that version is listed by it. */
  ghost predicate Recorded(components: seq<Component>, key: string, version: string)
    requires key in NonemptyKeys(components)
  {
    var record := MergedFor(components, key);
    version == record.version || exists d :: d in Named(components, key) && d.version == version && Lists(record, Citation(d))
  }

  /** When a version stays visible, for any detections at all. */
  lemma RecordedExactly(components: seq<Component>, key: string, version: string) returns (w: nat)
    requires key in NonemptyKeys(components)
    ensures var mine := Named(components, key);
            && IsEarliestGreatest(mine, w)
            && (Recorded(components, key, version) <==>
                  || version == mine[w].version
                  || exists d :: d in mine && d.version == version &&
                       if Disputed(mine) then CitedAs(mine, Citation(d)) else Lists(mine[w], Citation(d)))
  {
    hide Priority, Named, CitedAs, Disputed, MergedFor, NonemptyKeys, Lists, Citation;
    var mine := Named(components, key);
    w := ListedExactly(components, key, "");
    forall d | d in mine
      ensures Lists(MergedFor(components, key), Citation(d)) <==>
                if Disputed(mine) then CitedAs(mine, Citation(d)) else Lists(mine[w], Citation(d))
    {
      var w' := ListedExactly(components, key, Citation(d));
      EarliestIsUnique(mine, w, w');
    }
  }

  lemma EarliestIsUnique(detections: seq<Component>, w: nat, w': nat)
    requires IsEarliestGreatest(detections, w) && IsEarliestGreatest(detections, w')
    ensures w == w'
  {
    assert Priority(detections[w]) <= Priority(detections[w']) <= Priority(detections[w]);
  }

  /** A version stays visible if each detection of it that gave way to another version has a label. */
  lemma NoVersionHidden(components: seq<Component>, c: Component)
    requires c in components && c.Key() != ""
    requires var mine := Named(components, c.Key());
             forall m :: 0 <= m < |mine| && mine[m].version == c.version && Contested(mine, m) ==> Label(mine[m]) != ""
    ensures c.Key() in NonemptyKeys(components) && Recorded(components, c.Key(), c.version)
  {
    hide Label, Lists, Citation, StandingOf, Contested, Named;
    var key := c.Key();
    var mine := Named(components, key);
    var j :| 0 <= j < |mine| && mine[j] == c;
    var w := RecordedExactly(components, key, c.version);
    var w' := WinnerIsEarliestGreatest(mine);
    EarliestIsUnique(mine, w, w');
    if c.version != mine[w].version {
      var m := LostVersionIsContested(mine, j);
      assert Cited(mine, m);
      assert CitedAs(mine, Citation(mine[m]));
      assert mine[m] in mine;
    }
  }

  lemma CitationParts(c: Component)
    ensures Citation(c)[|Label(c)|] == '=' && Citation(c)[|Label(c)| + 1..] == c.version
    ensures forall k :: 0 <= k < |Label(c)| ==> Citation(c)[k] in Label(c)
  {
    hide Label;
  }

  lemma CitationTellsVersion(a: Component, b: Component)
    requires '=' !in Label(a) && '=' !in Label(b) && Citation(a) == Citation(b)
    ensures a.version == b.version
  {
    hide Label, Citation;
    CitationParts(a);
    CitationParts(b);
  }

  /** When labels hold no `=` and no detection brings a list of its own, so that a citation tells its version: a
      version is hidden exactly when it is not the kept one and each detection of it that gave way to another version
      is unlabelled. */
  lemma HiddenExactly(components: seq<Component>, c: Component) returns (w: nat)
    requires c in components && c.Key() != ""
    requires forall d :: d in Named(components, c.Key()) ==> '=' !in Label(d) && "also_detected_by" !in d.extra
    ensures c.Key() in NonemptyKeys(components)
    ensures var mine := Named(components, c.Key());
            && IsEarliestGreatest(mine, w)
            && (!Recorded(components, c.Key(), c.version) <==>
                  && c.version != mine[w].version
                  && forall m :: 0 <= m < |mine| && mine[m].version == c.version && Contested(mine, m) ==> Label(mine[m]) == "")
  {
    hide Label, Lists, Citation, Contested, Named, Priority, Recorded;
    var key := c.Key();
    var mine := Named(components, key);
    w := RecordedExactly(components, key, c.version);
    ListsNothing(mine[w]);
    forall d | d in mine && d.version == c.version && CitedAs(mine, Citation(d))
      ensures exists m :: 0 <= m < |mine| && mine[m].version == c.version && Cited(mine, m)
    {
      var m :| 0 <= m < |mine| && Cited(mine, m) && Citation(mine[m]) == Citation(d);
      CitationTellsVersion(mine[m], d);
    }
    forall m | 0 <= m < |mine| && mine[m].version == c.version && Cited(mine, m)
      ensures mine[m] in mine && Disputed(mine) && CitedAs(mine, Citation(mine[m]))
    {
    }
  }

  lemma ListsNothing(record: Component)
    requires "also_detected_by" !in record.extra
    ensures forall t :: !Lists(record, t)
  {
  }

  // ---- Versions that leave no trace ----

  function Found(version: string, extra: map<string, Json>): Component {
    Component("x", version, "", "", "", extra)
  }

  lemma {:induction false} FoundTogether(components: seq<Component>)
    requires forall c :: c in components ==> c.name == "x"
    ensures Named(components, "x") == components
    ensures components != [] ==> NonemptyKeys(components) == {"x"}
  {
    hide Normal;
    NormalX();
    if components != [] {
      var n := |components| - 1;
      assert components == components[..n] + [components[n]];
      assert components[n] in components;
      FoundTogether(components[..n]);
    }
  }

  lemma NormalX()
    ensures Normal("x") == "x"
  {
    TrimmedStrip("x");
  }

  lemma MergedAlone(components: seq<Component>, key: string)
    requires NonemptyKeys(components) == {key}
    ensures Merged(components) == [MergedFor(components, key)]
  {
    hide MergedFor, NonemptyKeys;
    var keys := SortedTexts({key});
    assert keys[0] in keys;
  }

  /** A merge that keeps one of the detections of `x` as it is and has nothing to cite hides every other version. */
  lemma OthersVanish(found: seq<Component>, kept: Component, version: string)
    requires found != [] && forall c :: c in found ==> c.name == "x"
    requires StandingOf(found) == Standing(kept, [])
    requires "also_detected_by" !in kept.extra && version != kept.version
    ensures "x" in NonemptyKeys(found) && Merged(found) == [kept] && !Recorded(found, "x", version)
  {
    hide StandingOf, Merged, NonemptyKeys, Named, Lists;
    FoundTogether(found);
    MergedAlone(found, "x");
    ListsNothing(kept);
  }

  /** Of two unlabelled detections, the version of the second is hidden. */
  lemma UnlabelledVersionVanishes()
    ensures var found := [Found("1", map[]), Found("2", map[])];
            && "x" in NonemptyKeys(found)
            && Merged(found) == [found[0]]
            && !Recorded(found, "x", "2")
  {
    hide Merged, NonemptyKeys, Recorded, Priority;
    var found := [Found("1", map[]), Found("2", map[])];
    assert found[..1] == [found[0]];
    PriorityOf(found[0], found[1]);
    OthersVanish(found, found[0], "2");
  }

  lemma PriorityOf(a: Component, b: Component)
    requires a.ExtraText("detector") == b.ExtraText("detector")
    ensures Priority(a) == Priority(b)
  {
  }

  /** A label does not help a detection that gives way to its own version: after an unlabelled and a labelled
      detection of version 1, a stronger one of version 2 hides version 1. */
  lemma LabelledVersionVanishes()
    ensures var found := [Found("1", map[]), Found("1", map["evidence" := Str("e")]), Found("2", map["detector" := Str("manifest")])];
            && "x" in NonemptyKeys(found)
            && Merged(found) == [found[2]]
            && !Recorded(found, "x", "1")
  {
    hide Merged, NonemptyKeys, Recorded, Priority, Citation;
    var found := [Found("1", map[]), Found("1", map["evidence" := Str("e")]), Found("2", map["detector" := Str("manifest")])];
    assert found[..2] == [found[0], found[1]] && found[..2][..1] == [found[0]];
    PriorityOf(found[0], found[1]);
    ManifestIsStronger(found[2], found[0]);
    assert StandingOf(found[..2]) == Standing(found[0], []);
    OthersVanish(found, found[2], "1");
  }

  lemma ManifestIsStronger(a: Component, b: Component)
    requires a.ExtraText("detector") == "manifest" && b.ExtraText("detector") == ""
    ensures Priority(a) > Priority(b)
  {
  }

  /** Merging a merged inventory changes nothing. */
  lemma MergeTwice(components: seq<Component>)
    ensures Merged(Merged(components)) == Merged(components)
  {
    var once := Merged(components);
    var names := SortedTexts(NonemptyKeys(components));
    MergedNames(components);
    assert NonemptyKeys(once) == NonemptyKeys(components) by { MergedKeys(components); }
    forall i | 0 <= i < |names| ensures Merged(once)[i] == once[i] {
      assert names[i] in names;
      forall j | 0 <= j < |once| && j != i ensures once[j].Key() != once[i].Key() {
        assert once[j].Key() == names[j] && once[i].Key() == names[i];
      }
      NamedAlone(once, i);
    }
  }

  lemma MergedKeys(components: seq<Component>)
    ensures NonemptyKeys(Merged(components)) == NonemptyKeys(components)
  {
    MergedNames(components);
    hide Merged, Keys;
    KeysListed(Merged(components), SortedTexts(NonemptyKeys(components)));
  }
}
