/** Merging providers first and the manifest after, compared with merging everything at once. */
module Staging {
  import opened Text
  import opened JsonValue
  import opened Ordering
  import opened Components
  import opened Inventory

  // ---- Concatenated groups ----

  lemma {:induction false} FirstOfConcat(a: seq<Component>, b: seq<Component>, f: Component -> string)
    ensures FirstOf(a + b, f) == if FirstOf(a, f) != "" then FirstOf(a, f) else FirstOf(b, f)
  {
    if b == [] {
      assert a + b == a;
    } else {
      assert (a + b)[..|a + b| - 1] == a + b[..|b| - 1];
      FirstOfConcat(a, b[..|b| - 1], f);
    }
  }

  lemma ConfidenceRange(group: seq<Component>)
    ensures forall i :: 0 <= i < |group| ==> 0.0 <= Confidence(group[i]) <= 1.0
  {
  }

  lemma {:induction false} MaxConcat(a: seq<Component>, b: seq<Component>)
    ensures 0.0 <= MaxConfidence(a) <= 1.0
    ensures MaxConfidence(a + b) == Max(MaxConfidence(a), MaxConfidence(b))
    decreases |a| + |b|
  {
    hide Confidence;
    ConfidenceRange(a + b);
    if b != [] {
      assert (a + b)[..|a + b| - 1] == a + b[..|b| - 1];
      MaxConcat(a, b[..|b| - 1]);
    } else {
      assert a + b == a;
      if a != [] {
        MaxConcat(a[..|a| - 1], []);
      }
    }
  }

  lemma SourcesConcat(a: seq<Component>, b: seq<Component>)
    ensures AllSources(a + b) == AllSources(a) + AllSources(b)
  {
    hide Sources;
    assert forall c :: c in a + b <==> c in a || c in b;
  }

  lemma {:induction false} GroupConcat(a: seq<Component>, b: seq<Component>, id: Identity)
    ensures GroupOf(a + b, id) == GroupOf(a, id) + GroupOf(b, id)
  {
    hide IdentityOf, Strip;
    if b == [] {
      assert a + b == a;
    } else {
      assert (a + b)[..|a + b| - 1] == a + b[..|b| - 1];
      GroupConcat(a, b[..|b| - 1], id);
    }
  }

  // ---- One merged record, read back ----

  /** The primary candidate is the first of the most confident ones. */
  lemma {:induction false} PrimaryIn(group: seq<Component>) returns (w: nat)
    requires group != []
    ensures w < |group| && Primary(group) == group[w]
    ensures forall j :: 0 <= j < |group| ==> Confidence(group[j]) <= Confidence(group[w])
    ensures forall j :: 0 <= j < w ==> Confidence(group[j]) < Confidence(group[w])
  {
    hide Confidence;
    var n := |group| - 1;
    if n == 0 {
      w := 0;
    } else {
      w := PrimaryIn(group[..n]);
      assert forall j :: 0 <= j < n ==> group[..n][j] == group[j];
      if Confidence(group[n]) > Confidence(group[w]) {
        w := n;
      }
    }
  }

  lemma {:induction false} FirstPurl(group: seq<Component>)
    ensures Strip(FirstOf(group, Purl)) == FirstOf(group, Purl)
    ensures FirstOf(group, Purl) == "" ==> forall c :: c in group ==> Purl(c) == ""
  {
    if group != [] {
      var n := |group| - 1;
      FirstPurl(group[..n]);
      StripTwice(group[n].ExtraText("purl"));
      assert group == group[..n] + [group[n]];
    }
  }

  lemma ListedTexts(texts: set<string>)
    ensures Listing(texts).List?
    ensures (set item | item in Listing(texts).items && item.Truthy() :: item.Show()) == texts - {""}
  {
    var sorted := SortedTexts(texts);
    var items := Listing(texts).items;
    forall t | t in texts - {""} ensures Str(t) in items {
      assert t in sorted;
      var i :| 0 <= i < |sorted| && sorted[i] == t;
      assert items[i] == Str(t);
    }
    forall item | item in items ensures exists t :: t in texts && item == Str(t) {
      var i :| 0 <= i < |items| && items[i] == item;
      assert sorted[i] in sorted;
    }
    forall t | t in texts - {""}
      ensures t in (set item | item in items && item.Truthy() :: item.Show())
    {
      assert Str(t).Show() == t && Str(t).Truthy();
    }
  }

  lemma DistinctFields()
    ensures "detection_sources" != "evidence_paths" && "detection_sources" != "confidence"
    ensures "detection_sources" != "licenses" && "detection_sources" != "license" && "detection_sources" != "purl"
    ensures "evidence_paths" != "confidence" && "evidence_paths" != "licenses"
    ensures "evidence_paths" != "license" && "evidence_paths" != "purl"
    ensures "confidence" != "licenses" && "confidence" != "license" && "confidence" != "purl"
    ensures "licenses" != "license" && "licenses" != "purl"
    ensures "license" != "purl"
  {
    assert "detection_sources"[0] == 'd' && "evidence_paths"[0] == 'e' && "confidence"[0] == 'c' && "purl"[0] == 'p';
    assert |"licenses"| == 8 && |"license"| == 7 && "licenses"[0] == 'l' && "license"[0] == 'l';
  }

  /** Writing six differently named fields, the licence fields and the last only on a condition. */
  lemma FieldsWritten(base: map<string, Json>, k1: string, v1: Json, k2: string, v2: Json, k3: string, v3: Json,
                      k4: string, v4: Json, k5: string, v5: Json, four: bool, k6: string, v6: Json, six: bool)
    requires k1 != k2 && k1 != k3 && k1 != k4 && k1 != k5 && k1 != k6
    requires k2 != k3 && k2 != k4 && k2 != k5 && k2 != k6 && k3 != k4 && k3 != k5 && k3 != k6
    requires k4 != k5 && k4 != k6 && k5 != k6
    ensures var three := base[k1 := v1][k2 := v2][k3 := v3];
            var five := if four then three[k4 := v4][k5 := v5] else three;
            var all := if six then five[k6 := v6] else five;
            && Get(all, k1, Null) == v1 && Get(all, k2, Null) == v2 && Get(all, k3, Null) == v3
            && (four ==> Get(all, k4, Null) == v4 && Get(all, k5, Null) == v5)
            && Get(all, k6, Str("")) == if six then v6 else Get(base, k6, Str(""))
  {
  }

  lemma ExtraFields(group: seq<Component>)
    requires group != []
    ensures var extra := MergedExtra(group);
            && Get(extra, "detection_sources", Null) == Listing(AllSources(group))
            && Get(extra, "evidence_paths", Null) == Listing(EvidencePaths(group))
            && Get(extra, "confidence", Null) == Float(Combined(MaxConfidence(group), |AllSources(group)|))
            && (Licenses(group) != {} ==>
                  && Get(extra, "licenses", Null) == Listing(Licenses(group))
                  && Get(extra, "license", Null) == Str(SortedTexts(Licenses(group))[0]))
            && Get(extra, "purl", Str("")) ==
               if FirstOf(group, Purl) == "" then Get(Primary(group).extra, "purl", Str("")) else Str(FirstOf(group, Purl))
  {
    hide Listing, AllSources, Licenses, EvidencePaths, Combined, MaxConfidence, FirstOf, Primary, Purl;
    DistinctFields();
    var licenses := Licenses(group);
    var purl := FirstOf(group, Purl);
    FieldsWritten(Primary(group).extra, "detection_sources", Listing(AllSources(group)),
                  "evidence_paths", Listing(EvidencePaths(group)),
                  "confidence", Float(Combined(MaxConfidence(group), |AllSources(group)|)),
                  "licenses", Listing(licenses), "license", if licenses == {} then Null else Str(SortedTexts(licenses)[0]),
                  licenses != {}, "purl", Str(purl), purl != "");
    hide Get;
  }

  lemma FieldPresent(extra: map<string, Json>, key: string, fallback: Json)
    requires Get(extra, key, Null) != Null
    ensures Get(extra, key, fallback) == Get(extra, key, Null)
  {
  }

  /** Reading a merged record's sources back gives the nonempty sources of its candidates. */
  lemma MergedSources(group: seq<Component>)
    requires group != []
    ensures Sources(MergeGroup(group)) == AllSources(group) - {""}
  {
    hide Listing, AllSources, Licenses, EvidencePaths, MergedExtra, Combined, Get;
    ListedTexts(AllSources(group));
    ExtraFields(group);
    FieldPresent(MergedExtra(group), "detection_sources", List([]));
  }

  lemma MergedPurl(group: seq<Component>)
    requires group != []
    ensures Purl(MergeGroup(group)) == FirstOf(group, Purl)
  {
    hide Listing, AllSources, Licenses, EvidencePaths, MergedExtra, Combined, Get, FirstOf, Strip;
    FirstPurl(group);
    var w := PrimaryIn(group);
    assert group[w] in group;
    ExtraFields(group);
  }

  /** What a component brings to a merge, read off its JSON: its confidence, half when it gives no number, kept within
      0 and 1; its sources; and its licence. */
  lemma EvidenceExactly(c: Component, s: string)
    ensures var confidence := Get(c.extra, "confidence", Null);
            match confidence
            case Float(x) => Confidence(c) == if x < 0.0 then 0.0 else if x > 1.0 then 1.0 else x
            case Int(n) => Confidence(c) == if n <= 0 then 0.0 else 1.0
            case Bool(b) => Confidence(c) == if b then 1.0 else 0.0
            case _ => Confidence(c) == 0.5
    ensures s in Sources(c) <==>
            && "detection_sources" in c.extra
            && var sources := c.extra["detection_sources"];
               || sources == Str(s)
               || (sources.List? && exists item :: item in sources.items && !Falsy(item) && s == item.Show())
    ensures License(c) == if "license" in c.extra then Strip(c.extra["license"].Show()) else ""
  {
    hide Strip, Falsy;
    assert Strip("") == "" by {
      TrimmedStrip("");
    }
    forall item: Json ensures item.Truthy() <==> !Falsy(item) {
      TruthyExactly(item);
    }
  }

  /** `text` is the first nonempty one of `texts`, empty when all are. */
  ghost predicate IsFirst(texts: seq<string>, text: string) {
    if text == "" then forall i :: 0 <= i < |texts| ==> texts[i] == ""
    else exists i :: 0 <= i < |texts| && texts[i] == text && forall j :: 0 <= j < i ==> texts[j] == ""
  }

  lemma {:induction false} FirstOfExactly(group: seq<Component>, f: Component -> string, texts: seq<string>)
    requires |texts| == |group| && forall i :: 0 <= i < |group| ==> texts[i] == f(group[i])
    ensures IsFirst(texts, FirstOf(group, f))
  {
    if group != [] {
      var n := |group| - 1;
      FirstOfExactly(group[..n], f, texts[..n]);
      if FirstOf(group[..n], f) != "" {
        var i :| 0 <= i < n && texts[..n][i] == FirstOf(group[..n], f) && forall j :: 0 <= j < i ==> texts[..n][j] == "";
        assert texts[i] == FirstOf(group, f);
        assert forall j :: 0 <= j < i ==> texts[j] == texts[..n][j];
      } else {
        assert forall j :: 0 <= j < n ==> texts[j] == texts[..n][j];
        assert texts[n] == FirstOf(group, f);
      }
    }
  }

  /** The plain fields of a merged record: name and version of the first most confident candidate, and of each other
      field the first nonempty one. */
  lemma FieldsExactly(group: seq<Component>, vendors: seq<string>, categories: seq<string>, paths: seq<string>,
                      purls: seq<string>) returns (w: nat)
    requires group != [] && |vendors| == |categories| == |paths| == |purls| == |group|
    requires forall i :: 0 <= i < |group| ==>
               && vendors[i] == group[i].vendor && categories[i] == group[i].category
               && paths[i] == group[i].path && purls[i] == group[i].Purl()
    ensures var record := MergeGroup(group);
            && w < |group| && record.name == Strip(group[w].name) && record.version == Strip(group[w].version)
            && (forall j :: 0 <= j < |group| ==> Confidence(group[j]) <= Confidence(group[w]))
            && (forall j :: 0 <= j < w ==> Confidence(group[j]) < Confidence(group[w]))
            && IsFirst(vendors, record.vendor) && IsFirst(categories, record.category)
            && IsFirst(paths, record.path) && IsFirst(purls, record.Purl())
  {
    hide MergedExtra, IsFirst, Confidence, Strip, FirstOf;
    w := PrimaryIn(group);
    MergedPurl(group);
    FirstOfExactly(group, Vendor, vendors);
    FirstOfExactly(group, Category, categories);
    FirstOfExactly(group, PathOf, paths);
    FirstOfExactly(group, Purl, purls);
  }

  /** Every other extra field is the primary candidate's. */
  lemma OtherFieldsArePrimarys(group: seq<Component>, key: string)
    requires group != []
    requires key !in {"detection_sources", "evidence_paths", "confidence", "licenses", "license", "purl"}
    ensures var extra, primary := MergeGroup(group).extra, Primary(group).extra;
            (key in extra <==> key in primary) && (key in extra ==> extra[key] == primary[key])
  {
    hide Listing, AllSources, Licenses, EvidencePaths, Combined, MaxConfidence, FirstOf, Primary, Purl;
  }

  /** Confidence always lies between 0 and 0.99. */
  lemma MergedConfidence(group: seq<Component>)
    requires group != []
    ensures Confidence(MergeGroup(group)) == Combined(MaxConfidence(group), |AllSources(group)|)
    ensures var bonus := if AllSources(group) == {} then 0.0 else 0.03 * (|AllSources(group)| - 1) as real;
            Confidence(MergeGroup(group)) == if MaxConfidence(group) + bonus < 0.99 then MaxConfidence(group) + bonus else 0.99
    ensures 0.0 <= Confidence(MergeGroup(group)) <= 0.99
  {
    hide Listing, AllSources, Licenses, EvidencePaths, MergedExtra, Get, MaxConfidence;
    MaxConcat(group, []);
    ExtraFields(group);
    FieldPresent(MergedExtra(group), "confidence", Float(0.5));
  }

  /** One merge keeps every evidence path and every licence; two do not, so this is stated for one. */
  lemma OneMergeKeepsEvidence(group: seq<Component>)
    requires group != []
    ensures var paths := Get(MergeGroup(group).extra, "evidence_paths", Null);
            paths.List? && forall p :: Str(p) in paths.items <==> p != "" && exists c :: c in group && c.path == p
    ensures (exists c :: c in group && License(c) != "") ==>
              var extra := MergeGroup(group).extra;
              var licenses := Get(extra, "licenses", Null);
              && licenses.List?
              && (forall l :: Str(l) in licenses.items <==> l != "" && exists c :: c in group && License(c) == l)
              && Get(extra, "license", Null).Str?
              && Get(extra, "license", Null) in licenses.items
              && forall l :: Str(l) in licenses.items ==> StrLe(Get(extra, "license", Null).s, l)
  {
    hide Listing, AllSources, MergedExtra, Combined, Get, License, StrLe;
    ExtraFields(group);
    ListingHolds(EvidencePaths(group));
    ListingHolds(Licenses(group));
    if c :| c in group && License(c) != "" {
      assert License(c) in Licenses(group);
      FirstIsSmallest(Licenses(group));
    }
  }

  lemma FirstIsSmallest(texts: set<string>)
    requires texts != {}
    ensures SortedTexts(texts)[0] in texts && forall t :: t in texts ==> StrLe(SortedTexts(texts)[0], t)
  {
    StrOrder();
    hide StrLe;
    var sorted := SortedTexts(texts);
    assert sorted[0] in sorted;
    forall t | t in texts ensures StrLe(sorted[0], t) {
      assert t in sorted;
      var i :| 0 <= i < |sorted| && sorted[i] == t;
    }
  }

  lemma MergedIdentity(group: seq<Component>, id: Identity)
    requires group != [] && forall c :: c in group ==> IdentityOf(c) == id && Strip(c.name) != ""
    ensures IdentityOf(MergeGroup(group)) == id && Strip(MergeGroup(group).name) != ""
  {
    hide MergedExtra, FirstOf;
    var w := PrimaryIn(group);
    StripTwice(Primary(group).name);
    StripTwice(Primary(group).version);
  }

  // ---- The merged inventory as input of a second merge ----

  lemma {:induction false} AloneInGroup(components: seq<Component>, i: nat)
    requires i < |components| && Strip(components[i].name) != ""
    requires forall j :: 0 <= j < |components| && j != i ==> IdentityOf(components[j]) != IdentityOf(components[i])
    ensures GroupOf(components, IdentityOf(components[i])) == [components[i]]
  {
    hide IdentityOf, Strip;
    var n := |components| - 1;
    var before := components[..n];
    assert forall j :: 0 <= j < n ==> before[j] == components[j];
    if i < n {
      AloneInGroup(before, i);
    } else {
      GroupNone(before, IdentityOf(components[i]));
    }
  }

  /** The merged inventory lists one record per identity, in identity order. */
  lemma MergedIdentities(b: seq<Component>)
    ensures var ids := SortedPairs(Identities(b));
            |Merged(b)| == |ids| && forall i :: 0 <= i < |ids| ==>
              IdentityOf(Merged(b)[i]) == ids[i] && Strip(Merged(b)[i].name) != "" &&
              ids[i] in Identities(b) && Merged(b)[i] == MergedFor(b, ids[i])
  {
    hide MergeGroup, IdentityOf, Strip;
    var ids := SortedPairs(Identities(b));
    forall i | 0 <= i < |ids|
      ensures ids[i] in Identities(b) && IdentityOf(Merged(b)[i]) == ids[i] && Strip(Merged(b)[i].name) != ""
    {
      assert ids[i] in ids;
      MergedIdentity(GroupOf(b, ids[i]), ids[i]);
    }
  }

  /** After merging `b`, each of its identities is left with one record, its merged group. */
  lemma MergedGroup(b: seq<Component>, id: Identity)
    ensures GroupOf(Merged(b), id) == if id in Identities(b) then [MergedFor(b, id)] else []
  {
    hide Merged, MergedFor, IdentityOf, Strip, Identities, GroupOf;
    var ids := SortedPairs(Identities(b));
    MergedIdentities(b);
    if id in Identities(b) {
      assert id in ids;
      var i :| 0 <= i < |ids| && ids[i] == id;
      AloneInGroup(Merged(b), i);
    } else {
      GroupNone(Merged(b), id);
    }
  }

  lemma IdentitiesAre(components: seq<Component>, id: Identity)
    ensures id in Identities(components) <==> GroupOf(components, id) != []
  {
    hide IdentityOf, Strip;
    if id in Identities(components) {
      var c :| c in components && Strip(c.name) != "" && IdentityOf(c) == id;
      assert c in GroupOf(components, id);
    } else {
      assert forall c :: c in components && Strip(c.name) != "" ==> IdentityOf(c) in Identities(components);
      GroupNone(components, id);
    }
  }

  /** `a` then the merge of `b` has the identities of `a` and `b` together. */
  lemma StagedIdentities(a: seq<Component>, b: seq<Component>)
    ensures Identities(a + Merged(b)) == Identities(a + b)
  {
    hide Merged, MergedFor, Identities;
    forall id ensures id in Identities(a + Merged(b)) <==> id in Identities(a + b) {
      IdentitiesAre(a + Merged(b), id);
      IdentitiesAre(a + b, id);
      IdentitiesAre(b, id);
      GroupConcat(a, b, id);
      GroupConcat(a, Merged(b), id);
      MergedGroup(b, id);
    }
  }

  /** What both ways of merging agree on: identity, sources read back, purl, and first nonempty fields. */
  predicate Agree(x: Component, y: Component) {
    && IdentityOf(x) == IdentityOf(y)
    && Sources(x) == Sources(y)
    && Purl(x) == Purl(y)
    && x.vendor == y.vendor && x.category == y.category && x.path == y.path
  }

  lemma GroupsAgree(a: seq<Component>, b: seq<Component>, id: Identity)
    requires b != []
    requires forall c :: c in a + b ==> IdentityOf(c) == id && Strip(c.name) != ""
    ensures Agree(MergeGroup(a + [MergeGroup(b)]), MergeGroup(a + b))
  {
    hide MergeGroup, Sources, Purl, IdentityOf, Strip;
    var m := MergeGroup(b);
    var staged, direct := a + [m], a + b;
    FieldsAgree(a, b);
    SourcesAgree(a, b);
    MergedIdentity(b, id);
    assert forall c :: c in staged ==> c in a || c == m;
    MergedIdentity(staged, id);
    MergedIdentity(direct, id);
  }

  lemma FieldsAgree(a: seq<Component>, b: seq<Component>)
    requires b != []
    ensures var x, y := MergeGroup(a + [MergeGroup(b)]), MergeGroup(a + b);
            Purl(x) == Purl(y) && x.vendor == y.vendor && x.category == y.category && x.path == y.path
  {
    hide MergedExtra, Purl;
    var m := MergeGroup(b);
    MergedPurl(b);
    MergedPurl(a + [m]);
    MergedPurl(a + b);
    FirstOfConcat(a, b, Purl);
    FirstOfConcat(a, [m], Purl);
    FirstOfConcat(a, b, Vendor);
    FirstOfConcat(a, [m], Vendor);
    FirstOfConcat(a, b, Category);
    FirstOfConcat(a, [m], Category);
    FirstOfConcat(a, b, PathOf);
    FirstOfConcat(a, [m], PathOf);
    FirstOfOne(m, Purl);
    FirstOfOne(m, Vendor);
    FirstOfOne(m, Category);
    FirstOfOne(m, PathOf);
  }

  lemma FirstOfOne(c: Component, f: Component -> string)
    ensures FirstOf([c], f) == f(c)
  {
    assert FirstOf([c][..0], f) == "";
  }

  lemma SourcesAgree(a: seq<Component>, b: seq<Component>)
    requires b != []
    ensures Sources(MergeGroup(a + [MergeGroup(b)])) == Sources(MergeGroup(a + b))
  {
    hide MergeGroup, Sources;
    var m := MergeGroup(b);
    MergedSources(b);
    MergedSources(a + [m]);
    MergedSources(a + b);
    SourcesConcat(a, b);
    SourcesConcat(a, [m]);
    assert AllSources([m]) == Sources(m);
  }

  /** Two-stage merging gives the same identities in the same order, and agrees with one-shot merging on
      sources, purl, vendor, category and path. */
  lemma StagingAgrees(a: seq<Component>, b: seq<Component>)
    ensures var staged, direct := Merged(a + Merged(b)), Merged(a + b);
            |staged| == |direct| && forall i :: 0 <= i < |direct| ==> Agree(staged[i], direct[i])
  {
    hide Agree, MergeGroup, GroupOf, Identities;
    StagedIdentities(a, b);
    var ids := SortedPairs(Identities(a + b));
    forall i | 0 <= i < |ids| ensures Agree(Merged(a + Merged(b))[i], Merged(a + b)[i]) {
      assert ids[i] in ids;
      RecordsAgree(a, b, ids[i]);
    }
  }

  lemma RecordsAgree(a: seq<Component>, b: seq<Component>, id: Identity)
    requires id in Identities(a + b) && id in Identities(a + Merged(b))
    ensures Agree(MergedFor(a + Merged(b), id), MergedFor(a + b, id))
  {
    hide Agree, MergeGroup, Identities, Merged, IdentityOf, Strip;
    var mine, other := GroupOf(a, id), GroupOf(b, id);
    GroupConcat(a, b, id);
    GroupConcat(a, Merged(b), id);
    MergedGroup(b, id);
    IdentitiesAre(b, id);
    IdentitiesAre(a + b, id);
    assert mine + [] == mine;
    if other == [] {
      AgreeSelf(MergeGroup(mine));
    } else {
      GroupsAgree(mine, other, id);
    }
  }

  lemma AgreeSelf(x: Component)
    ensures Agree(x, x)
  {
  }

  lemma IdentitiesExactly(components: seq<Component>, name: string, version: string)
    ensures (name, version) in Identities(components) <==>
            name != "" && exists c :: c in components && Normal(c.name) == name && Strip(c.version) == version
  {
    hide Strip;
    forall c: Component ensures (Strip(c.name) == "" <==> Normal(c.name) == "") {
    }
  }

  ghost predicate HoldsRecord(components: seq<Component>, name: string, version: string) {
    exists r :: r in components && Normal(r.name) == name && Strip(r.version) == version
  }

  /** The merged inventory holds a record for each trimmed version of each nonblank normal name, and no other. */
  lemma RecordsExactly(components: seq<Component>, name: string, version: string)
    ensures HoldsRecord(Merged(components), name, version) <==> name != "" && HoldsRecord(components, name, version)
  {
    hide Merged, MergedFor, Normal, Strip, Identities;
    var merged, ids := Merged(components), SortedPairs(Identities(components));
    IdentitiesExactly(components, name, version);
    MergedIdentities(components);
    if (name, version) in Identities(components) {
      var i :| 0 <= i < |ids| && ids[i] == (name, version);
      assert merged[i] in merged;
    }
    if r :| r in merged && Normal(r.name) == name && Strip(r.version) == version {
      var i :| 0 <= i < |merged| && merged[i] == r;
      assert ids[i] == (name, version);
    }
  }

  /** And only one for each, in order of name and then version. */
  lemma RecordsInOrder(components: seq<Component>, i: nat, j: nat)
    requires i < j < |Merged(components)|
    ensures var r, s := Merged(components)[i], Merged(components)[j];
            if Normal(r.name) != Normal(s.name) then StrLe(Normal(r.name), Normal(s.name))
            else StrLe(Strip(r.version), Strip(s.version)) && Strip(r.version) != Strip(s.version)
  {
    hide Merged, MergedFor, Normal, Strip, Identities, StrLe;
    MergedIdentities(components);
  }

  /** Merging two inventories is merging one after the other. */
  lemma MergedTogether(a: seq<Component>, b: seq<Component>)
    ensures Flatten([a, b]) == a + b
  {
    assert [a, b][..1] == [a] && [a][..0] == [];
    assert Flatten([a]) == Flatten([]) + a;
  }

  // ---- Confidence ----

  /** The one family of inputs on which staging lowers a confidence: some staged candidate names the empty text
      as its source, which one-shot merging counts as one more agreeing source and the second stage drops, and
      the bonus already earned in the first stage does not make up for it. */
  predicate LosesBlankSource(a: seq<Component>, b: seq<Component>) {
    var all := AllSources(a) + AllSources(b);
    var first := Combined(MaxConfidence(b), |AllSources(b)|);
    && "" in AllSources(b) && "" !in AllSources(a) && |all| >= 2
    && Max(MaxConfidence(a), first) < Max(MaxConfidence(a), MaxConfidence(b)) + 0.03
    && Max(MaxConfidence(a), first) + 0.03 * (|all| - 2) as real < 0.99
  }

  lemma StagedConfidence(a: seq<Component>, b: seq<Component>)
    requires b != []
    ensures Confidence(MergeGroup(a + b)) ==
            Combined(Max(MaxConfidence(a), MaxConfidence(b)), |AllSources(a) + AllSources(b)|)
    ensures Confidence(MergeGroup(a + [MergeGroup(b)])) ==
            Combined(Max(MaxConfidence(a), Combined(MaxConfidence(b), |AllSources(b)|)),
                     |AllSources(a) + (AllSources(b) - {""})|)
  {
    hide MergeGroup, Sources, Confidence, AllSources;
    var m := MergeGroup(b);
    MergedConfidence(a + b);
    MergedConfidence(a + [m]);
    MergedConfidence(b);
    MaxConcat(a, b);
    MaxConcat(a, [m]);
    SourcesConcat(a, b);
    SourcesConcat(a, [m]);
    MergedSources(b);
    SourcesOfOne(m);
    ConfidenceOfOne(m);
  }

  lemma SourcesOfOne(c: Component)
    ensures AllSources([c]) == Sources(c)
  {
    hide Sources;
    assert c in [c];
  }

  /** Staging lowers a group's confidence exactly on that family; in particular never when no staged candidate
      gives the empty text as its source. */
  lemma StagingLowersExactly(a: seq<Component>, b: seq<Component>)
    requires b != []
    ensures Confidence(MergeGroup(a + [MergeGroup(b)])) < Confidence(MergeGroup(a + b)) <==> LosesBlankSource(a, b)
    ensures "" !in AllSources(b) ==>
              Confidence(MergeGroup(a + [MergeGroup(b)])) >= Confidence(MergeGroup(a + b))
  {
    hide MergeGroup, Confidence, AllSources, MaxConfidence;
    StagedConfidence(a, b);
    var all := AllSources(a) + AllSources(b);
    var kept := AllSources(a) + (AllSources(b) - {""});
    MaxConcat(a, b);
    MaxConcat(b, a);
    if "" in AllSources(b) && "" !in AllSources(a) {
      assert all == kept + {""} && "" !in kept;
      assert |kept| == |all| - 1;
    } else {
      assert all == kept;
    }
    if all == {} {
      assert AllSources(b) == {};
    }
  }

  /** For a whole inventory: every confidence lies in 0..0.99, and an identity is less certain after staging
      exactly when its own candidates are in that family. */
  lemma StagedInventoryConfidence(a: seq<Component>, b: seq<Component>, id: Identity)
    requires id in Identities(a + b)
    ensures id in Identities(a + Merged(b))
    ensures var staged, direct := MergedFor(a + Merged(b), id), MergedFor(a + b, id);
            && 0.0 <= Confidence(staged) <= 0.99 && 0.0 <= Confidence(direct) <= 0.99
            && (Confidence(staged) < Confidence(direct) <==>
                  id in Identities(b) && LosesBlankSource(GroupOf(a, id), GroupOf(b, id)))
  {
    hide MergeGroup, Identities, Merged, IdentityOf, Strip, Confidence, LosesBlankSource;
    var mine, other := GroupOf(a, id), GroupOf(b, id);
    StagedIdentities(a, b);
    GroupConcat(a, b, id);
    GroupConcat(a, Merged(b), id);
    MergedGroup(b, id);
    IdentitiesAre(b, id);
    IdentitiesAre(a + b, id);
    IdentitiesAre(a + Merged(b), id);
    assert mine + [] == mine;
    MergedConfidence(GroupOf(a + b, id));
    MergedConfidence(GroupOf(a + Merged(b), id));
    if other != [] {
      StagingLowersExactly(mine, other);
    }
  }

  /** A concrete loss: the manifest names one source, a staged provider gives the empty text. */
  lemma StagingCanLowerConfidence(name: string)
    requires Strip(name) != ""
    ensures var manifest := Component(name, "1.0", "", "", "", map["detection_sources" := Str("manifest")]);
            var provider := Component(name, "1.0", "", "", "", map["detection_sources" := Str("")]);
            Confidence(MergeGroup([manifest] + [MergeGroup([provider])])) < Confidence(MergeGroup([manifest] + [provider]))
  {
    hide MergeGroup, AllSources, Strip;
    var manifest := Component(name, "1.0", "", "", "", map["detection_sources" := Str("manifest")]);
    var provider := Component(name, "1.0", "", "", "", map["detection_sources" := Str("")]);
    SourcesOfOne(manifest);
    SourcesOfOne(provider);
    ConfidenceOfOne(manifest);
    ConfidenceOfOne(provider);
    hide MaxConfidence;
    StagingLowersExactly([manifest], [provider]);
    assert AllSources([manifest]) + AllSources([provider]) == {"manifest", ""};
    assert |{"manifest", ""}| == 2;
  }

  lemma ConfidenceOfOne(c: Component)
    ensures MaxConfidence([c]) == Confidence(c)
  {
    assert [c][..0] == [];
  }
}
