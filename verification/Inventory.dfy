/** Evidence-aware merging of component inventories, applied once or in two stages. */
module Inventory {
  import opened Text
  import opened JsonValue
  import opened Ordering
  import opened Components

  /** `(name.casefold(), version)` of the trimmed fields. */
  type Identity = (string, string)

  function IdentityOf(c: Component): Identity {
    (Normal(c.name), Strip(c.version))
  }

  function Max(a: real, b: real): real {
    if a >= b then a else b
  }

  function Min(a: real, b: real): real {
    if a <= b then a else b
  }

  /** `_component_confidence`: unreadable values count 0.5, others are clamped to 0..1. */
  function Confidence(c: Component): real {
    var value := Get(c.extra, "confidence", Float(0.5)).AsFloat();
    if value.None? then 0.5 else Max(0.0, Min(1.0, value.value))
  }

  /** The detection sources a component brings: a bare text counts even when empty, list items only when truthy. */
  function Sources(c: Component): set<string> {
    match Get(c.extra, "detection_sources", List([]))
    case Str(s) => {s}
    case List(items) => set item | item in items && item.Truthy() :: item.Show()
    case _ => {}
  }

  function License(c: Component): string {
    Strip(c.ExtraText("license"))
  }

  // ---- One group of candidates ----

  function AllSources(group: seq<Component>): set<string> {
    set c, s | c in group && s in Sources(c) :: s
  }

  function EvidencePaths(group: seq<Component>): set<string> {
    set c | c in group && c.path != "" :: c.path
  }

  function Licenses(group: seq<Component>): set<string> {
    set c | c in group && License(c) != "" :: License(c)
  }

  /** `max(candidates, key=_component_confidence)`: the first of the most confident. */
  function Primary(group: seq<Component>): Component
    requires group != []
  {
    if |group| == 1 then group[0]
    else
      var best := Primary(group[..|group| - 1]);
      if Confidence(group[|group| - 1]) > Confidence(best) then group[|group| - 1] else best
  }

  function MaxConfidence(group: seq<Component>): real {
    if group == [] then 0.0
    else Max(MaxConfidence(group[..|group| - 1]), Confidence(group[|group| - 1]))
  }

  /** `next((f(item) for item in group if f(item)), "")`. */
  function FirstOf(group: seq<Component>, f: Component -> string): string {
    if group == [] then ""
    else if FirstOf(group[..|group| - 1], f) != "" then FirstOf(group[..|group| - 1], f)
    else f(group[|group| - 1])
  }

  function Purl(c: Component): string { c.Purl() }
  function Vendor(c: Component): string { c.vendor }
  function Category(c: Component): string { c.category }
  function PathOf(c: Component): string { c.path }

  /** Confidence of `n` agreeing sources: each one after the first adds 0.03, up to 0.99. */
  function Combined(confidence: real, n: nat): real {
    Min(0.99, confidence + 0.03 * (if n == 0 then 0 else n - 1) as real)
  }

  function MergedExtra(group: seq<Component>): map<string, Json>
    requires group != []
  {
    var sources := AllSources(group);
    var licenses := Licenses(group);
    var purl := FirstOf(group, Purl);
    var base := Primary(group).extra["detection_sources" := Listing(sources)]
                                    ["evidence_paths" := Listing(EvidencePaths(group))]
                                    ["confidence" := Float(Combined(MaxConfidence(group), |sources|))];
    var licensed := if licenses == {} then base
                    else base["licenses" := Listing(licenses)]["license" := Str(SortedTexts(licenses)[0])];
    if purl == "" then licensed else licensed["purl" := Str(purl)]
  }

  function MergeGroup(group: seq<Component>): Component
    requires group != []
  {
    Component(Strip(Primary(group).name), Strip(Primary(group).version),
              FirstOf(group, Vendor), FirstOf(group, Category), FirstOf(group, PathOf), MergedExtra(group))
  }

  // ---- The whole inventory ----

  function GroupOf(components: seq<Component>, id: Identity): (r: seq<Component>)
    ensures forall c :: c in r <==> c in components && IdentityOf(c) == id && Strip(c.name) != ""
  {
    if components == [] then []
    else
      var last := components[|components| - 1];
      GroupOf(components[..|components| - 1], id) + if IdentityOf(last) == id && Strip(last.name) != "" then [last] else []
  }

  function Identities(components: seq<Component>): set<Identity> {
    set c | c in components && Strip(c.name) != "" :: IdentityOf(c)
  }

  function MergedFor(components: seq<Component>, id: Identity): Component
    requires id in Identities(components)
  {
    assert exists c :: c in components && Strip(c.name) != "" && IdentityOf(c) == id;
    MergeGroup(GroupOf(components, id))
  }

  /** `merge_components` of the concatenated inventories. */
  function Merged(components: seq<Component>): seq<Component> {
    var ids := SortedPairs(Identities(components));
    seq(|ids|, i requires 0 <= i < |ids| => assert ids[i] in ids; MergedFor(components, ids[i]))
  }

  // ---- The loops ----

  ghost predicate Groups(components: seq<Component>, grouped: map<Identity, seq<Component>>) {
    && grouped.Keys == Identities(components)
    && forall id :: id in grouped ==> GroupOf(components, id) == grouped[id] && grouped[id] != []
  }

  lemma GroupsNothing()
    ensures Groups([], map[])
  {
  }

  lemma GroupNext(components: seq<Component>, c: Component, id: Identity)
    ensures GroupOf(components + [c], id) ==
            GroupOf(components, id) + if IdentityOf(c) == id && Strip(c.name) != "" then [c] else []
  {
    assert (components + [c])[..|components|] == components;
  }

  lemma {:induction false} GroupNone(components: seq<Component>, id: Identity)
    requires forall c :: c in components && Strip(c.name) != "" ==> IdentityOf(c) != id
    ensures GroupOf(components, id) == []
  {
    hide Strip, IdentityOf;
    if components != [] {
      assert components[|components| - 1] in components;
      GroupNone(components[..|components| - 1], id);
    }
  }

  lemma IdentitiesNext(components: seq<Component>, c: Component)
    ensures Identities(components + [c]) == Identities(components) + if Strip(c.name) == "" then {} else {IdentityOf(c)}
  {
    hide Strip, IdentityOf;
    var next := components + [c];
    assert c in next && forall d :: d in next <==> d in components || d == c;
  }

  lemma IdentitiesHold(components: seq<Component>)
    ensures forall c :: c in components && Strip(c.name) != "" ==> IdentityOf(c) in Identities(components)
  {
  }

  lemma GroupsNext(components: seq<Component>, grouped: map<Identity, seq<Component>>, c: Component)
    requires Groups(components, grouped)
    ensures var id := IdentityOf(c);
            Groups(components + [c],
                   if Strip(c.name) == "" then grouped
                   else grouped[id := (if id in grouped then grouped[id] else []) + [c]])
  {
    hide Strip, IdentityOf, GroupOf, Identities;
    IdentitiesNext(components, c);
    forall id
      ensures GroupOf(components + [c], id) ==
              GroupOf(components, id) + if IdentityOf(c) == id && Strip(c.name) != "" then [c] else []
    {
      GroupNext(components, c, id);
    }
    if IdentityOf(c) !in grouped {
      assert forall d :: d in components && Strip(d.name) != "" ==> IdentityOf(d) in grouped by { IdentitiesHold(components); }
      GroupNone(components, IdentityOf(c));
    }
  }

  function Flatten(inventories: seq<seq<Component>>): seq<Component> {
    if inventories == [] then []
    else Flatten(inventories[..|inventories| - 1]) + inventories[|inventories| - 1]
  }

  /** The grouping loops of `merge_components`. */
  method GroupComponents(inventories: seq<seq<Component>>) returns (grouped: map<Identity, seq<Component>>)
    ensures Groups(Flatten(inventories), grouped)
  {
    hide Groups, Strip, IdentityOf;
    grouped := map[];
    GroupsNothing();
    for i := 0 to |inventories|
      invariant Groups(Flatten(inventories[..i]), grouped)
    {
      var inventory := inventories[i];
      ghost var before := Flatten(inventories[..i]);
      assert inventories[..i + 1][..i] == inventories[..i];
      assert before + inventory[..0] == before;
      for j := 0 to |inventory|
        invariant Groups(before + inventory[..j], grouped)
      {
        var component := inventory[j];
        assert before + inventory[..j + 1] == before + inventory[..j] + [component];
        GroupsNext(before + inventory[..j], grouped, component);
        var name := Strip(component.name);
        if name != "" {
          var id := IdentityOf(component);
          grouped := grouped[id := (if id in grouped then grouped[id] else []) + [component]];
        }
      }
      assert inventory[..|inventory|] == inventory;
    }
    assert inventories[..|inventories|] == inventories;
  }

  /** What the candidate loop has gathered from `group`. */
  ghost predicate Gathered(group: seq<Component>, sources: set<string>, paths: set<string>, confidence: real,
                           licenses: set<string>, purl: string)
  {
    && sources == AllSources(group) && paths == EvidencePaths(group) && confidence == MaxConfidence(group)
    && licenses == Licenses(group) && purl == FirstOf(group, Purl)
  }

  lemma GatherNext(group: seq<Component>, c: Component, sources: set<string>, paths: set<string>, confidence: real,
                   licenses: set<string>, purl: string)
    requires Gathered(group, sources, paths, confidence, licenses, purl)
    ensures Gathered(group + [c], sources + Sources(c), if c.path != "" then paths + {c.path} else paths,
                     Max(confidence, Confidence(c)),
                     if License(c) != "" then licenses + {License(c)} else licenses,
                     if purl == "" then Purl(c) else purl)
  {
    hide Sources, Confidence, License, Purl, Max;
    var next := group + [c];
    assert next[..|group|] == group;
    assert c in next && forall d :: d in next <==> d in group || d == c;
    assert AllSources(next) == sources + Sources(c);
    assert EvidencePaths(next) == if c.path != "" then paths + {c.path} else paths;
    assert Licenses(next) == if License(c) != "" then licenses + {License(c)} else licenses;
  }

  /** The candidate loop of `merge_components`, and the record built from what it gathers. */
  method MergeCandidates(candidates: seq<Component>) returns (merged: Component)
    requires candidates != []
    ensures merged == MergeGroup(candidates)
  {
    hide Gathered, Confidence, License, Purl, Listing;
    var sources: set<string> := {};
    var evidencePaths: set<string> := {};
    var confidence := 0.0;
    var licenses: set<string> := {};
    var purl := "";
    GatherNothing();
    for i := 0 to |candidates|
      invariant Gathered(candidates[..i], sources, evidencePaths, confidence, licenses, purl)
    {
      var candidate := candidates[i];
      assert candidates[..i + 1] == candidates[..i] + [candidate];
      GatherNext(candidates[..i], candidate, sources, evidencePaths, confidence, licenses, purl);
      sources := sources + Sources(candidate);
      if candidate.path != "" {
        evidencePaths := evidencePaths + {candidate.path};
      }
      confidence := Max(confidence, Confidence(candidate));
      var licenseName := License(candidate);
      if licenseName != "" {
        licenses := licenses + {licenseName};
      }
      if purl == "" {
        purl := Purl(candidate);
      }
    }
    assert candidates[..|candidates|] == candidates;
    merged := Build(candidates, sources, evidencePaths, confidence, licenses, purl);
  }

  lemma GatherNothing()
    ensures Gathered([], {}, {}, 0.0, {}, "")
  {
  }

  method Build(candidates: seq<Component>, sources: set<string>, evidencePaths: set<string>, confidence: real,
               licenses: set<string>, purl: string) returns (merged: Component)
    requires candidates != [] && Gathered(candidates, sources, evidencePaths, confidence, licenses, purl)
    ensures merged == MergeGroup(candidates)
  {
    var primary := Primary(candidates);
    var extra := primary.extra;
    extra := extra["detection_sources" := Listing(sources)];
    extra := extra["evidence_paths" := Listing(evidencePaths)];
    extra := extra["confidence" := Float(Combined(confidence, |sources|))];
    if licenses != {} {
      extra := extra["licenses" := Listing(licenses)];
      extra := extra["license" := Str(SortedTexts(licenses)[0])];
    }
    if purl != "" {
      extra := extra["purl" := Str(purl)];
    }
    merged := Component(Strip(primary.name), Strip(primary.version), FirstOf(candidates, Vendor),
                        FirstOf(candidates, Category), FirstOf(candidates, PathOf), extra);
  }

  /** `merge_components(*inventories)`. */
  method MergeComponents(inventories: seq<seq<Component>>) returns (merged: seq<Component>)
    ensures merged == Merged(Flatten(inventories))
  {
    hide Merged, MergeGroup, Groups, Flatten;
    var grouped := GroupComponents(inventories);
    GroupsNonempty(Flatten(inventories), grouped);
    var ids := SortedPairs(grouped.Keys);
    merged := [];
    for i := 0 to |ids|
      invariant |merged| == i
      invariant forall j :: 0 <= j < i ==> ids[j] in grouped && grouped[ids[j]] != [] && merged[j] == MergeGroup(grouped[ids[j]])
    {
      assert ids[i] in ids;
      var one := MergeCandidates(grouped[ids[i]]);
      merged := merged + [one];
    }
    GroupsMerged(Flatten(inventories), grouped, merged);
  }

  lemma GroupsNonempty(components: seq<Component>, grouped: map<Identity, seq<Component>>)
    requires Groups(components, grouped)
    ensures forall id :: id in grouped ==> grouped[id] != []
  {
  }

  lemma GroupsMerged(components: seq<Component>, grouped: map<Identity, seq<Component>>, merged: seq<Component>)
    requires Groups(components, grouped)
    requires var ids := SortedPairs(grouped.Keys);
             |merged| == |ids| && forall j :: 0 <= j < |ids| ==>
               ids[j] in grouped && grouped[ids[j]] != [] && merged[j] == MergeGroup(grouped[ids[j]])
    ensures merged == Merged(components)
  {
    hide MergeGroup, GroupOf;
    var ids := SortedPairs(grouped.Keys);
    forall j | 0 <= j < |ids| ensures merged[j] == Merged(components)[j] {
      assert ids[j] in ids;
    }
  }
}
