/** Comparing two firmware inventories by component name and version order. */
module Diff {
  import opened Options
  import opened Text
  import opened Ordering
  import opened Components
  import opened Version

  datatype Direction = Added | Removed | Upgraded | Downgraded | Changed | Unchanged

  datatype Change = Change(
    name: string,
    oldVersion: Option<string>,
    newVersion: Option<string>,
    direction: Direction)

  datatype FirmwareDiff = FirmwareDiff(
    added: seq<Change>,
    removed: seq<Change>,
    upgraded: seq<Change>,
    downgraded: seq<Change>,
    changed: seq<Change>,
    same: seq<Change>)
  {
    function Bucket(d: Direction): seq<Change> {
      match d
      case Added => added
      case Removed => removed
      case Upgraded => upgraded
      case Downgraded => downgraded
      case Changed => changed
      case Unchanged => same
    }
  }

  function Append(diff: FirmwareDiff, change: Change): FirmwareDiff {
    match change.direction
    case Added => diff.(added := diff.added + [change])
    case Removed => diff.(removed := diff.removed + [change])
    case Upgraded => diff.(upgraded := diff.upgraded + [change])
    case Downgraded => diff.(downgraded := diff.downgraded + [change])
    case Changed => diff.(changed := diff.changed + [change])
    case Unchanged => diff.(same := diff.same + [change])
  }

  function DirectionOf(oldVersion: string, newVersion: string): Direction {
    var oldKey := VersionKey(oldVersion);
    var newKey := VersionKey(newVersion);
    if oldVersion == newVersion then Unchanged
    else if oldKey == [] || newKey == [] then Changed
    else if !KeyLe(newKey, oldKey) then Upgraded
    else if !KeyLe(oldKey, newKey) then Downgraded
    else Changed
  }

  /** The direction is that of the version order, except that a version without tokens is never ordered. */
  lemma DirectionMeaning(oldVersion: string, newVersion: string)
    ensures var d := DirectionOf(oldVersion, newVersion);
            && (d == Unchanged <==> oldVersion == newVersion)
            && (d == Upgraded <==> VersionKey(oldVersion) != [] && Compare(oldVersion, newVersion) < 0)
            && (d == Downgraded <==> VersionKey(newVersion) != [] && Compare(oldVersion, newVersion) > 0)
  {
    hide VersionKey;
    KeyOrder();
  }

  /** Components by normalised name. */
  type Index = map<string, Component>

  /** The dictionary `setdefault` builds. */
  function IndexOf(components: seq<Component>): Index {
    if components == [] then map[]
    else
      var last := components[|components| - 1];
      var before := IndexOf(components[..|components| - 1]);
      if last.Key() in before then before else before[last.Key() := last]
  }

  /** It holds the first component of each name. */
  lemma {:induction false} IndexIsFirst(components: seq<Component>, key: string)
    ensures key in IndexOf(components) <==> Named(components, key) != []
    ensures key in IndexOf(components) ==> IndexOf(components)[key] == Named(components, key)[0]
  {
    if components != [] {
      IndexIsFirst(components[..|components| - 1], key);
    }
  }

  lemma {:induction false} IndexKeys(components: seq<Component>)
    ensures IndexOf(components).Keys == Keys(components)
    ensures forall key :: key in IndexOf(components) ==> IndexOf(components)[key].Key() == key
  {
    hide Normal;
    if components != [] {
      var n := |components| - 1;
      IndexKeys(components[..n]);
      assert components == components[..n] + [components[n]];
    }
  }

  method ByName(components: seq<Component>) returns (byName: Index)
    ensures byName == IndexOf(components)
  {
    byName := map[];
    for i := 0 to |components|
      invariant byName == IndexOf(components[..i])
    {
      assert components[..i + 1][..i] == components[..i];
      var key := components[i].Key();
      if key !in byName {
        byName := byName[key := components[i]];
      }
    }
    assert components[..|components|] == components;
  }

  // ---- Buckets ----

  /** How a name fares between two inventories that know it. */
  function ClassOf(older: Index, newer: Index, name: string): Direction
    requires name in older || name in newer
  {
    if name !in older then Added
    else if name !in newer then Removed
    else DirectionOf(older[name].version, newer[name].version)
  }

  function ChangeFor(older: Index, newer: Index, name: string): Change
    requires name in older || name in newer
  {
    Change(if name in newer then newer[name].name else older[name].name,
           if name in older then Some(older[name].version) else None,
           if name in newer then Some(newer[name].version) else None,
           ClassOf(older, newer, name))
  }

  function NamesOf(older: Index, newer: Index, d: Direction): set<string> {
    set name | name in older.Keys + newer.Keys && ClassOf(older, newer, name) == d
  }

  predicate Known(older: Index, newer: Index, names: seq<string>) {
    forall name | name in names :: name in older || name in newer
  }

  function ChangesFor(older: Index, newer: Index, names: seq<string>): (r: seq<Change>)
    requires Known(older, newer, names)
    ensures |r| == |names|
  {
    if names == [] then []
    else ChangesFor(older, newer, names[..|names| - 1]) + [ChangeFor(older, newer, names[|names| - 1])]
  }

  lemma {:induction false} ChangesAt(older: Index, newer: Index, names: seq<string>, i: nat)
    requires Known(older, newer, names) && i < |names|
    ensures ChangesFor(older, newer, names)[i] == ChangeFor(older, newer, names[i])
  {
    hide ChangeFor;
    if i < |names| - 1 {
      ChangesAt(older, newer, names[..|names| - 1], i);
    }
  }

  /** The changes of one direction, in name order. */
  function BucketOf(older: Index, newer: Index, d: Direction): seq<Change> {
    ChangesFor(older, newer, SortedTexts(NamesOf(older, newer, d)))
  }

  // ---- The loops ----

  /** The names of direction `d` in a list of known names, in the list's order. */
  function Pick(older: Index, newer: Index, names: seq<string>, d: Direction): (r: seq<string>)
    requires Known(older, newer, names)
    ensures forall name :: name in r <==> name in names && ClassOf(older, newer, name) == d
  {
    if names == [] then []
    else
      var last := names[|names| - 1];
      Pick(older, newer, names[..|names| - 1], d) + if ClassOf(older, newer, last) == d then [last] else []
  }

  /** The changes of direction `d` gathered from a list of names. */
  ghost predicate Sifted(older: Index, newer: Index, names: seq<string>, d: Direction, bucket: seq<Change>) {
    Known(older, newer, names) && bucket == ChangesFor(older, newer, Pick(older, newer, names, d))
  }

  lemma SiftedNothing(older: Index, newer: Index)
    ensures forall d :: Sifted(older, newer, [], d, [])
  {
  }

  lemma SiftNext(older: Index, newer: Index, names: seq<string>, name: string, d: Direction, bucket: seq<Change>)
    requires Sifted(older, newer, names, d, bucket)
    requires name in older || name in newer
    ensures Sifted(older, newer, names + [name], d,
                   if ClassOf(older, newer, name) == d then bucket + [ChangeFor(older, newer, name)] else bucket)
  {
    hide ClassOf, ChangeFor;
    var next := names + [name];
    assert next[..|names|] == names;
    var picked := Pick(older, newer, names, d);
    assert (picked + [name])[..|picked|] == picked;
    assert picked + [] == picked;
  }

  lemma {:induction false} PickIncreasing(older: Index, newer: Index, names: seq<string>, d: Direction)
    requires Known(older, newer, names) && Increasing(StrLe, names)
    ensures Increasing(StrLe, Pick(older, newer, names, d))
  {
    if names != [] {
      hide ClassOf, StrLe;
      var n := |names| - 1;
      IncreasingLast(StrLe, names, n);
      PickIncreasing(older, newer, names[..n], d);
      IncreasingNext(StrLe, Pick(older, newer, names[..n], d), names[n]);
    }
  }

  lemma SiftedAll(older: Index, newer: Index, names: seq<string>, d: Direction, bucket: seq<Change>)
    requires Sifted(older, newer, names, d, bucket) && Increasing(StrLe, names)
    requires forall name :: name in NamesOf(older, newer, d) ==> name in names
    ensures bucket == BucketOf(older, newer, d)
  {
    hide ClassOf, ChangeFor;
    StrOrder();
    PickIncreasing(older, newer, names, d);
    IncreasingUnique(StrLe, Pick(older, newer, names, d), SortedTexts(NamesOf(older, newer, d)));
  }

  lemma NamesBySide(older: Index, newer: Index)
    ensures NamesOf(older, newer, Added) == newer.Keys - older.Keys
    ensures NamesOf(older, newer, Removed) == older.Keys - newer.Keys
    ensures forall d :: d != Added && d != Removed ==> NamesOf(older, newer, d) <= older.Keys * newer.Keys
  {
    hide VersionKey;
  }

  lemma AddedStep(older: Index, newer: Index, names: seq<string>, name: string, added: seq<Change>)
    requires Sifted(older, newer, names, Added, added) && name in newer && name !in older
    ensures Sifted(older, newer, names + [name], Added, added + [Change(newer[name].name, None, Some(newer[name].version), Added)])
  {
    hide Sifted;
    SiftNext(older, newer, names, name, Added, added);
  }

  lemma RemovedStep(older: Index, newer: Index, names: seq<string>, name: string, removed: seq<Change>)
    requires Sifted(older, newer, names, Removed, removed) && name in older && name !in newer
    ensures Sifted(older, newer, names + [name], Removed, removed + [Change(older[name].name, Some(older[name].version), None, Removed)])
  {
    hide Sifted;
    SiftNext(older, newer, names, name, Removed, removed);
  }

  method ListAdded(older: Index, newer: Index) returns (added: seq<Change>)
    ensures added == BucketOf(older, newer, Added)
  {
    hide Sifted, BucketOf, NamesOf;
    var names := SortedTexts(newer.Keys - older.Keys);
    added := ListAddedNames(older, newer, names);
    NamesBySide(older, newer);
    SiftedAll(older, newer, names, Added, added);
  }

  method ListAddedNames(older: Index, newer: Index, names: seq<string>) returns (added: seq<Change>)
    requires forall i :: 0 <= i < |names| ==> names[i] in newer.Keys - older.Keys
    ensures Sifted(older, newer, names, Added, added)
  {
    hide Sifted;
    added := [];
    SiftedNothing(older, newer);
    for i := 0 to |names|
      invariant Sifted(older, newer, names[..i], Added, added)
    {
      var name := names[i];
      TakeNext(names, i);
      AddedStep(older, newer, names[..i], name, added);
      added := added + [Change(newer[name].name, None, Some(newer[name].version), Added)];
    }
    assert names[..|names|] == names;
  }

  method ListRemoved(older: Index, newer: Index) returns (removed: seq<Change>)
    ensures removed == BucketOf(older, newer, Removed)
  {
    hide Sifted, BucketOf, NamesOf;
    var names := SortedTexts(older.Keys - newer.Keys);
    removed := ListRemovedNames(older, newer, names);
    NamesBySide(older, newer);
    SiftedAll(older, newer, names, Removed, removed);
  }

  method ListRemovedNames(older: Index, newer: Index, names: seq<string>) returns (removed: seq<Change>)
    requires forall i :: 0 <= i < |names| ==> names[i] in older.Keys - newer.Keys
    ensures Sifted(older, newer, names, Removed, removed)
  {
    hide Sifted;
    removed := [];
    SiftedNothing(older, newer);
    for i := 0 to |names|
      invariant Sifted(older, newer, names[..i], Removed, removed)
    {
      var name := names[i];
      TakeNext(names, i);
      RemovedStep(older, newer, names[..i], name, removed);
      removed := removed + [Change(older[name].name, Some(older[name].version), None, Removed)];
    }
    assert names[..|names|] == names;
  }

  ghost predicate AllSifted(older: Index, newer: Index, names: seq<string>, diff: FirmwareDiff) {
    forall d :: d != Added && d != Removed ==> Sifted(older, newer, names, d, diff.Bucket(d))
  }

  lemma AllSiftNext(older: Index, newer: Index, names: seq<string>, name: string, diff: FirmwareDiff)
    requires AllSifted(older, newer, names, diff) && name in older && name in newer
    ensures AllSifted(older, newer, names + [name], Append(diff, ChangeFor(older, newer, name)))
  {
    hide Sifted, DirectionOf;
    forall d | d != Added && d != Removed
      ensures Sifted(older, newer, names + [name], d, Append(diff, ChangeFor(older, newer, name)).Bucket(d))
    {
      SiftNext(older, newer, names, name, d, diff.Bucket(d));
    }
  }

  lemma TwoSided(oldVersion: string, newVersion: string)
    ensures DirectionOf(oldVersion, newVersion) != Added && DirectionOf(oldVersion, newVersion) != Removed
  {
    hide VersionKey, KeyLe;
  }

  /** The loop over the names both inventories know: each change is appended to the bucket of its direction. */
  method Classify(older: Index, newer: Index, start: FirmwareDiff) returns (diff: FirmwareDiff)
    requires start.upgraded == start.downgraded == start.changed == start.same == []
    ensures diff.added == start.added && diff.removed == start.removed
    ensures forall d :: d != Added && d != Removed ==> diff.Bucket(d) == BucketOf(older, newer, d)
  {
    hide Sifted, DirectionOf, BucketOf, NamesOf, AllSifted;
    diff := start;
    var names := SortedTexts(older.Keys * newer.Keys);
    ClassifyStarts(older, newer, diff);
    for i := 0 to |names|
      invariant AllSifted(older, newer, names[..i], diff)
      invariant diff.added == start.added && diff.removed == start.removed
    {
      var name := names[i];
      assert name in names;
      TakeNext(names, i);
      AllSiftNext(older, newer, names[..i], name, diff);
      var direction := DirectionOf(older[name].version, newer[name].version);
      var change := Change(newer[name].name, Some(older[name].version), Some(newer[name].version), direction);
      TwoSided(older[name].version, newer[name].version);
      assert change == ChangeFor(older, newer, name);
      diff := Append(diff, change);
    }
    assert names[..|names|] == names;
    ClassifyEnds(older, newer, names, diff);
  }

  lemma ClassifyStarts(older: Index, newer: Index, diff: FirmwareDiff)
    requires diff.upgraded == diff.downgraded == diff.changed == diff.same == []
    ensures AllSifted(older, newer, [], diff)
  {
    hide Sifted;
    SiftedNothing(older, newer);
  }

  lemma ClassifyEnds(older: Index, newer: Index, names: seq<string>, diff: FirmwareDiff)
    requires names == SortedTexts(older.Keys * newer.Keys) && AllSifted(older, newer, names, diff)
    ensures forall d :: d != Added && d != Removed ==> diff.Bucket(d) == BucketOf(older, newer, d)
  {
    hide Sifted, NamesOf, BucketOf;
    NamesBySide(older, newer);
    forall d | d != Added && d != Removed ensures diff.Bucket(d) == BucketOf(older, newer, d) {
      SiftedAll(older, newer, names, d, diff.Bucket(d));
    }
  }

  /** `diff_components`: each bucket lists exactly the names of its direction, in order. */
  method DiffComponents(older: seq<Component>, newer: seq<Component>) returns (diff: FirmwareDiff)
    ensures forall d :: diff.Bucket(d) == BucketOf(IndexOf(older), IndexOf(newer), d)
  {
    hide BucketOf, IndexOf;
    var oldByName := ByName(older);
    var newByName := ByName(newer);
    var added := ListAdded(oldByName, newByName);
    var removed := ListRemoved(oldByName, newByName);
    diff := Classify(oldByName, newByName, FirmwareDiff(added, removed, [], [], [], []));
  }

  // ---- Nothing lost, nothing doubled ----

  function Total(older: Index, newer: Index): nat {
    |BucketOf(older, newer, Added)| + |BucketOf(older, newer, Removed)| + |BucketOf(older, newer, Upgraded)|
    + |BucketOf(older, newer, Downgraded)| + |BucketOf(older, newer, Changed)| + |BucketOf(older, newer, Unchanged)|
  }

  /** The six buckets list every known name once: each entry of a bucket stands for a name of that direction, in
      strict name order, and the entries add up to the number of known names. */
  lemma BucketsPartitionNames(older: seq<Component>, newer: seq<Component>)
    ensures var o, n := IndexOf(older), IndexOf(newer);
            && (forall d :: |BucketOf(o, n, d)| == |NamesOf(o, n, d)| &&
                  forall i :: 0 <= i < |NamesOf(o, n, d)| ==>
                    Normal(BucketOf(o, n, d)[i].name) == SortedTexts(NamesOf(o, n, d))[i] &&
                    BucketOf(o, n, d)[i].direction == d)
            && Total(o, n) == |Keys(older) + Keys(newer)|
  {
    hide ClassOf, Normal, IndexOf, Keys;
    var o, n := IndexOf(older), IndexOf(newer);
    IndexKeys(older);
    IndexKeys(newer);
    forall d, i | 0 <= i < |NamesOf(o, n, d)|
      ensures Normal(BucketOf(o, n, d)[i].name) == SortedTexts(NamesOf(o, n, d))[i]
      ensures BucketOf(o, n, d)[i].direction == d
    {
      var names := SortedTexts(NamesOf(o, n, d));
      assert names[i] in names;
      ChangesAt(o, n, names, i);
    }
    NamesAddUp(o, n);
  }

  /** The version the first component of this name has, if there is one. */
  function VersionIn(components: seq<Component>, name: string): Option<string> {
    var mine := Named(components, name);
    if mine == [] then None else Some(mine[0].version)
  }

  /** What each entry says: the versions its name has first on either side, none where the name is missing, the newer
      spelling if there is one, and the direction these versions take. */
  lemma ChangesExactly(older: seq<Component>, newer: seq<Component>, d: Direction, i: nat)
    requires i < |BucketOf(IndexOf(older), IndexOf(newer), d)|
    ensures var change := BucketOf(IndexOf(older), IndexOf(newer), d)[i]; var name := Normal(change.name);
            && change.oldVersion == VersionIn(older, name)
            && change.newVersion == VersionIn(newer, name)
            && (change.oldVersion.Some? || change.newVersion.Some?)
            && change.name == (if change.newVersion.Some? then Named(newer, name)[0].name else Named(older, name)[0].name)
            && d == change.direction ==
                 if change.oldVersion.None? then Added
                 else if change.newVersion.None? then Removed
                 else DirectionOf(change.oldVersion.value, change.newVersion.value)
  {
    hide IndexOf, DirectionOf, Named, NamesOf;
    var o, n := IndexOf(older), IndexOf(newer);
    var names := SortedTexts(NamesOf(o, n, d));
    assert names[i] in names;
    NamesHold(o, n, d, names[i]);
    NamesKnown(o, n, d);
    hide ChangesFor;
    ChangesAt(o, n, names, i);
    IndexKeys(older);
    IndexKeys(newer);
    IndexIsFirst(older, names[i]);
    IndexIsFirst(newer, names[i]);
  }

  lemma NamesAddUp(older: Index, newer: Index)
    ensures Total(older, newer) == |older.Keys + newer.Keys|
  {
    TotalIs(older, newer);
    hide Total;
    var a, b := NamesOf(older, newer, Added), NamesOf(older, newer, Removed);
    var c, d := NamesOf(older, newer, Upgraded), NamesOf(older, newer, Downgraded);
    var e, f := NamesOf(older, newer, Changed), NamesOf(older, newer, Unchanged);
    NamesCover(older, newer);
    NamesDisjoint(older, newer);
    hide NamesOf;
    SizesAdd(a, b);
    SizesAdd(a + b, c);
    SizesAdd(a + b + c, d);
    SizesAdd(a + b + c + d, e);
    SizesAdd(a + b + c + d + e, f);
  }

  lemma SizesAdd(x: set<string>, y: set<string>)
    ensures x !! y ==> |x + y| == |x| + |y|
  {
  }

  lemma TotalIs(older: Index, newer: Index)
    ensures Total(older, newer) ==
            |NamesOf(older, newer, Added)| + |NamesOf(older, newer, Removed)| + |NamesOf(older, newer, Upgraded)|
            + |NamesOf(older, newer, Downgraded)| + |NamesOf(older, newer, Changed)| + |NamesOf(older, newer, Unchanged)|
  {
    hide ClassOf, ChangesFor;
  }

  lemma NamesCover(older: Index, newer: Index)
    ensures older.Keys + newer.Keys ==
            NamesOf(older, newer, Added) + NamesOf(older, newer, Removed) + NamesOf(older, newer, Upgraded)
            + NamesOf(older, newer, Downgraded) + NamesOf(older, newer, Changed) + NamesOf(older, newer, Unchanged)
  {
    hide ClassOf;
    forall name | name in older.Keys + newer.Keys
      ensures name in NamesOf(older, newer, Added) + NamesOf(older, newer, Removed) + NamesOf(older, newer, Upgraded)
                    + NamesOf(older, newer, Downgraded) + NamesOf(older, newer, Changed) + NamesOf(older, newer, Unchanged)
    {
      assert name in NamesOf(older, newer, ClassOf(older, newer, name));
    }
  }

  lemma NamesDisjoint(older: Index, newer: Index)
    ensures forall x: Direction, y: Direction :: x != y ==> NamesOf(older, newer, x) !! NamesOf(older, newer, y)
  {
    hide ClassOf;
  }

  // ---- Swapping the inventories ----

  function Opposite(d: Direction): Direction {
    match d
    case Added => Removed
    case Removed => Added
    case Upgraded => Downgraded
    case Downgraded => Upgraded
    case Changed => Changed
    case Unchanged => Unchanged
  }

  lemma DirectionSwaps(oldVersion: string, newVersion: string)
    ensures DirectionOf(newVersion, oldVersion) == Opposite(DirectionOf(oldVersion, newVersion))
  {
    hide VersionKey, KeyLe;
    KeyOrder();
  }

  lemma ClassSwaps(older: Index, newer: Index, name: string)
    requires name in older || name in newer
    ensures ClassOf(newer, older, name) == Opposite(ClassOf(older, newer, name))
  {
    hide DirectionOf;
    if name in older && name in newer {
      DirectionSwaps(older[name].version, newer[name].version);
    }
  }

  lemma NamesSwap(older: Index, newer: Index, d: Direction)
    ensures NamesOf(newer, older, Opposite(d)) == NamesOf(older, newer, d)
  {
    hide ClassOf;
    forall name | name in older.Keys + newer.Keys
      ensures ClassOf(newer, older, name) == Opposite(ClassOf(older, newer, name))
    {
      ClassSwaps(older, newer, name);
    }
    assert forall x: Direction, y: Direction :: Opposite(x) == Opposite(y) ==> x == y;
  }

  /** Swapping the inventories swaps added with removed and upgraded with downgraded and fixes the other two:
      same names in the same order, versions exchanged; the spelling of the name is that of the newer side. */
  lemma SwapReverses(older: seq<Component>, newer: seq<Component>, d: Direction)
    ensures var o, n := IndexOf(older), IndexOf(newer);
            var there, back := BucketOf(o, n, d), BucketOf(n, o, Opposite(d));
            && |there| == |back|
            && forall i :: 0 <= i < |there| ==>
                 && back[i].oldVersion == there[i].newVersion && back[i].newVersion == there[i].oldVersion
                 && back[i].direction == Opposite(there[i].direction)
                 && Normal(back[i].name) == Normal(there[i].name)
                 && (d == Added || d == Removed ==> back[i].name == there[i].name)
  {
    hide NamesOf, IndexOf, Normal, DirectionOf;
    var o, n := IndexOf(older), IndexOf(newer);
    IndexKeys(older);
    IndexKeys(newer);
    NamesSwap(o, n, d);
    var names := SortedTexts(NamesOf(o, n, d));
    var there, back := BucketOf(o, n, d), BucketOf(n, o, Opposite(d));
    forall i | 0 <= i < |names|
      ensures back[i].oldVersion == there[i].newVersion && back[i].newVersion == there[i].oldVersion
      ensures back[i].direction == Opposite(there[i].direction)
      ensures Normal(back[i].name) == Normal(there[i].name)
      ensures d == Added || d == Removed ==> back[i].name == there[i].name
    {
      assert names[i] in names;
      NamesHold(o, n, d, names[i]);
      NamesKnown(o, n, d);
      ChangesAt(o, n, names, i);
      ChangesAt(n, o, names, i);
      ClassSwaps(o, n, names[i]);
    }
  }

  lemma NamesKnown(older: Index, newer: Index, d: Direction)
    ensures Known(older, newer, SortedTexts(NamesOf(older, newer, d))) && Known(newer, older, SortedTexts(NamesOf(older, newer, d)))
  {
    hide ClassOf;
  }

  lemma NamesHold(older: Index, newer: Index, d: Direction, name: string)
    requires name in NamesOf(older, newer, d)
    ensures (name in older || name in newer) && ClassOf(older, newer, name) == d
    ensures d == Added ==> name !in older
    ensures d == Removed ==> name !in newer
  {
    hide VersionKey, KeyLe;
  }

  // ---- Three inventories ----

  lemma UpgradesChain(a: string, b: string, c: string)
    requires DirectionOf(a, b) == Upgraded && DirectionOf(b, c) == Upgraded
    ensures DirectionOf(a, c) == Upgraded
  {
    hide VersionKey, KeyLe;
    KeyOrder();
  }

  /** A component upgraded twice in a row is upgraded overall, and a downgrade twice in a row is one overall. */
  lemma UpgradesCompose(first: seq<Component>, second: seq<Component>, third: seq<Component>, name: string)
    ensures name in NamesOf(IndexOf(first), IndexOf(second), Upgraded) && name in NamesOf(IndexOf(second), IndexOf(third), Upgraded)
            ==> name in NamesOf(IndexOf(first), IndexOf(third), Upgraded)
    ensures name in NamesOf(IndexOf(first), IndexOf(second), Downgraded) && name in NamesOf(IndexOf(second), IndexOf(third), Downgraded)
            ==> name in NamesOf(IndexOf(first), IndexOf(third), Downgraded)
  {
    var a, b, c := IndexOf(first), IndexOf(second), IndexOf(third);
    UpgradesComposeBy(a, b, c, name);
    NamesSwap(a, b, Downgraded);
    NamesSwap(b, c, Downgraded);
    NamesSwap(a, c, Downgraded);
    UpgradesComposeBy(c, b, a, name);
  }

  lemma UpgradesComposeBy(a: Index, b: Index, c: Index, name: string)
    ensures name in NamesOf(a, b, Upgraded) && name in NamesOf(b, c, Upgraded) ==> name in NamesOf(a, c, Upgraded)
  {
    hide DirectionOf;
    if name in NamesOf(a, b, Upgraded) && name in NamesOf(b, c, Upgraded) {
      BothKnow(a, b, name);
      BothKnow(b, c, name);
      UpgradesChain(a[name].version, b[name].version, c[name].version);
    }
  }

  lemma BothKnow(older: Index, newer: Index, name: string)
    requires name in NamesOf(older, newer, Upgraded)
    ensures name in older && name in newer && DirectionOf(older[name].version, newer[name].version) == Upgraded
  {
    hide VersionKey, KeyLe;
  }
}
