/** The bounded breadth-first search for root filesystems inside an extraction tree. */
module Rootfs {
  import opened Options
  import opened Ordering

  /** A directory as the search sees it: whether it holds a marker, is a symbolic link, can be listed,
      and the entries below it that are directories. */
  datatype Dir = Dir(marked: bool, symlink: bool, readable: bool, children: map<string, Dir>)

  /** The names from the search root down. */
  type Path = seq<string>

  datatype Entry = Entry(path: Path, dir: Dir)

  const MAX_ROOTFS_DEPTH := 6
  const MAX_ROOTFS_CANDIDATES := 16

  /** The sorted listing of a directory; nothing when it is too deep or cannot be read. */
  function Children(entry: Entry): (r: seq<Entry>) {
    if |entry.path| >= MAX_ROOTFS_DEPTH || !entry.dir.readable then []
    else
      var names := SortedTexts(entry.dir.children.Keys);
      seq(|names|, i requires 0 <= i < |names| =>
        assert names[i] in names;
        Entry(entry.path + [names[i]], entry.dir.children[names[i]]))
  }

  /** The real directories with a marker, which the search reports, or those without, which it goes on below. */
  function Pick(entries: seq<Entry>, marked: bool): seq<Entry> {
    if entries == [] then []
    else
      var last := entries[|entries| - 1];
      Pick(entries[..|entries| - 1], marked) + if !last.dir.symlink && last.dir.marked == marked then [last] else []
  }

  function PickBelow(entries: seq<Entry>, marked: bool): seq<Entry> {
    if entries == [] then []
    else PickBelow(entries[..|entries| - 1], marked) + Pick(Children(entries[|entries| - 1]), marked)
  }

  /** The directories listed at depth `d`. */
  function Level(root: Dir, d: nat): seq<Entry> {
    if d == 0 then [Entry([], root)] else PickBelow(Level(root, d - 1), false)
  }

  /** Everything found by listing the directories above depth `d`, the root's own marker first. */
  function FoundAbove(root: Dir, d: nat): seq<Entry> {
    if d == 0 then (if root.marked then [Entry([], root)] else [])
    else FoundAbove(root, d - 1) + PickBelow(Level(root, d - 1), true)
  }

  /** What an uncapped search would report. */
  function Uncapped(root: Dir): seq<Entry> {
    FoundAbove(root, MAX_ROOTFS_DEPTH + 1)
  }

  function Cap(found: seq<Entry>): seq<Entry> {
    if |found| <= MAX_ROOTFS_CANDIDATES then found else found[..MAX_ROOTFS_CANDIDATES]
  }

  lemma CapOfPrefix(above: seq<Entry>, some: seq<Entry>, all: seq<Entry>, whole: seq<Entry>)
    requires some <= all && above + all <= whole
    requires |Cap(above + some)| >= MAX_ROOTFS_CANDIDATES
    ensures Cap(above + some) == Cap(whole)
  {
    assert all[..|some|] == some;
    assert whole[..|above + all|] == above + all;
    assert whole[..MAX_ROOTFS_CANDIDATES] == (above + some)[..MAX_ROOTFS_CANDIDATES];
  }

  lemma {:induction false} AbovePrefix(root: Dir, d: nat, e: nat)
    requires d <= e
    ensures FoundAbove(root, d) <= FoundAbove(root, e)
  {
    hide PickBelow, Level;
    if d < e {
      AbovePrefix(root, d, e - 1);
    }
  }

  // ---- The search ----

  /** The search has listed the first `i` directories of level `d`. */
  ghost predicate Searching(root: Dir, d: nat, i: nat, queue: seq<Entry>, candidates: seq<Entry>) {
    && d <= MAX_ROOTFS_DEPTH + 1 && i <= |Level(root, d)|
    && queue == Level(root, d)[i..] + PickBelow(Level(root, d)[..i], false)
    && candidates == Cap(FoundAbove(root, d) + PickBelow(Level(root, d)[..i], true))
  }

  lemma SearchStarts(root: Dir)
    ensures Searching(root, 0, 0, [Entry([], root)], if root.marked then [Entry([], root)] else [])
  {
    assert FoundAbove(root, 0) + [] == FoundAbove(root, 0);
  }

  lemma LevelZero(root: Dir)
    ensures Level(root, 0) == [Entry([], root)]
    ensures FoundAbove(root, 0) == if root.marked then [Entry([], root)] else []
  {
  }

  lemma LevelNext(root: Dir, d: nat)
    ensures Level(root, d + 1) == PickBelow(Level(root, d), false)
    ensures FoundAbove(root, d + 1) == FoundAbove(root, d) + PickBelow(Level(root, d), true)
    ensures PickBelow([], false) == [] && PickBelow([], true) == []
  {
  }

  /** With level `d` used up the queue is exactly level `d + 1`. */
  lemma LevelDone(root: Dir, d: nat, queue: seq<Entry>, candidates: seq<Entry>)
    requires Searching(root, d, |Level(root, d)|, queue, candidates) && d <= MAX_ROOTFS_DEPTH
    ensures Searching(root, d + 1, 0, queue, candidates)
  {
    hide Level, PickBelow, FoundAbove;
    var level := Level(root, d);
    LevelNext(root, d);
    assert level[..|level|] == level;
    assert Level(root, d + 1)[..0] == [] && Level(root, d + 1)[0..] == Level(root, d + 1);
    assert queue == PickBelow(level, false);
    assert FoundAbove(root, d + 1) + [] == FoundAbove(root, d + 1);
  }

  lemma SearchStep(root: Dir, d: nat, i: nat, queue: seq<Entry>, candidates: seq<Entry>)
    requires Searching(root, d, i, queue, candidates) && i < |Level(root, d)|
    ensures queue != [] && queue[0] == Level(root, d)[i]
    ensures var listing := Children(queue[0]);
            var all := FoundAbove(root, d) + PickBelow(Level(root, d)[..i], true);
            && candidates == Cap(all)
            && Searching(root, d, i + 1, queue[1..] + Pick(listing, false), Cap(all + Pick(listing, true)))
  {
    hide Level, FoundAbove, Pick, Children;
    var level := Level(root, d);
    assert level[..i + 1][..i] == level[..i];
    assert level[i..][1..] == level[i + 1..];
    var listing := Children(level[i]);
    var above, below := FoundAbove(root, d), PickBelow(level[..i], true);
    assert above + below + Pick(listing, true) == above + (below + Pick(listing, true));
  }

  lemma SearchedPrefix(root: Dir, d: nat, i: nat, queue: seq<Entry>, candidates: seq<Entry>)
    requires Searching(root, d, i, queue, candidates)
    requires |candidates| >= MAX_ROOTFS_CANDIDATES || d == MAX_ROOTFS_DEPTH + 1
    ensures candidates == Cap(Uncapped(root))
  {
    assert PickBelow([], true) == [];
    assert FoundAbove(root, d + 1) == FoundAbove(root, d) + PickBelow(Level(root, d), true);
    hide Level, PickBelow, FoundAbove;
    if d == MAX_ROOTFS_DEPTH + 1 {
      LevelLengths(root, d);
      assert Level(root, d)[..i] == [];
      assert FoundAbove(root, d) + [] == FoundAbove(root, d);
    } else {
      var level := Level(root, d);
      BelowPrefix(level, i);
      AbovePrefix(root, d + 1, MAX_ROOTFS_DEPTH + 1);
      CapOfPrefix(FoundAbove(root, d), PickBelow(level[..i], true), PickBelow(level, true), Uncapped(root));
    }
  }

  lemma {:induction false} BelowPrefix(entries: seq<Entry>, i: nat)
    requires i <= |entries|
    ensures PickBelow(entries[..i], true) <= PickBelow(entries, true)
  {
    if i < |entries| {
      var shorter := entries[..|entries| - 1];
      BelowPrefix(shorter, i);
      assert shorter[..i] == entries[..i];
    } else {
      assert entries[..i] == entries;
    }
  }

  /** Entries of level `d` lie at depth `d`; nothing is listed below the depth limit. */
  lemma {:induction false} LevelLengths(root: Dir, d: nat)
    ensures forall e :: e in Level(root, d) ==> |e.path| == d
    ensures d > MAX_ROOTFS_DEPTH ==> Level(root, d) == []
  {
    if d > 0 {
      LevelLengths(root, d - 1);
      PickLengths(Level(root, d - 1), false, d - 1);
    }
  }

  lemma {:induction false} PickIn(entries: seq<Entry>, marked: bool, e: Entry)
    ensures e in Pick(entries, marked) <==> e in entries && !e.dir.symlink && e.dir.marked == marked
  {
    if entries != [] {
      var n := |entries| - 1;
      PickIn(entries[..n], marked, e);
      assert entries == entries[..n] + [entries[n]];
    }
  }

  lemma {:induction false} PickLengths(entries: seq<Entry>, marked: bool, d: nat)
    requires forall e :: e in entries ==> |e.path| == d
    ensures forall e :: e in PickBelow(entries, marked) ==> |e.path| == d + 1
    ensures d >= MAX_ROOTFS_DEPTH ==> PickBelow(entries, marked) == []
  {
    if entries != [] {
      var n := |entries| - 1;
      assert entries[n] in entries;
      PickLengths(entries[..n], marked, d);
      var listing := Children(entries[n]);
      forall e | e in Pick(listing, marked) ensures |e.path| == d + 1 {
        PickIn(listing, marked, e);
      }
    }
  }

  lemma NextLevel(root: Dir, d: nat, i: nat, queue: seq<Entry>, candidates: seq<Entry>) returns (d': nat, i': nat)
    requires Searching(root, d, i, queue, candidates) && queue != []
    ensures Searching(root, d', i', queue, candidates) && i' < |Level(root, d')|
    ensures (d' == d && i' == i) || d' == d + 1 <= MAX_ROOTFS_DEPTH + 1
  {
    LevelLengths(root, d);
    if i < |Level(root, d)| {
      d', i' := d, i;
    } else {
      LevelDone(root, d, queue, candidates);
      d', i' := d + 1, 0;
    }
  }

  lemma SearchExhausted(root: Dir, d: nat, i: nat, candidates: seq<Entry>)
    requires Searching(root, d, i, [], candidates)
    ensures candidates == Cap(Uncapped(root))
    decreases MAX_ROOTFS_DEPTH + 1 - d
  {
    hide Uncapped;
    if d == MAX_ROOTFS_DEPTH + 1 {
      SearchedPrefix(root, d, i, [], candidates);
    } else {
      assert i == |Level(root, d)|;
      LevelDone(root, d, [], candidates);
      SearchExhausted(root, d + 1, 0, candidates);
    }
  }

  lemma ListOneMore(listing: seq<Entry>, j: nat, marked: bool)
    requires j < |listing|
    ensures Pick(listing[..j + 1], marked) ==
            Pick(listing[..j], marked) + if !listing[j].dir.symlink && listing[j].dir.marked == marked then [listing[j]] else []
    ensures Pick(listing[..j + 1], marked) <= Pick(listing, marked)
  {
    assert listing[..j + 1][..j] == listing[..j];
    PickPrefix(listing, j + 1, marked);
  }

  lemma {:induction false} PickPrefix(listing: seq<Entry>, j: nat, marked: bool)
    requires j <= |listing|
    ensures Pick(listing[..j], marked) <= Pick(listing, marked)
  {
    if j < |listing| {
      var shorter := listing[..|listing| - 1];
      PickPrefix(shorter, j, marked);
      assert shorter[..j] == listing[..j];
    } else {
      assert listing[..j] == listing;
    }
  }

  /** The inner loop over one sorted listing; it stops as soon as the cap is reached. */
  method VisitListing(listing: seq<Entry>, queue: seq<Entry>, candidates: seq<Entry>, ghost all: seq<Entry>)
    returns (queue': seq<Entry>, candidates': seq<Entry>)
    requires candidates == Cap(all) && |candidates| < MAX_ROOTFS_CANDIDATES
    ensures candidates' == Cap(all + Pick(listing, true))
    ensures |candidates'| < MAX_ROOTFS_CANDIDATES ==> queue' == queue + Pick(listing, false)
  {
    queue', candidates' := queue, candidates;
    assert all + Pick(listing[..0], true) == all && queue + Pick(listing[..0], false) == queue;
    hide Pick;
    for j := 0 to |listing|
      invariant |candidates'| < MAX_ROOTFS_CANDIDATES
      invariant candidates' == all + Pick(listing[..j], true) && queue' == queue + Pick(listing[..j], false)
    {
      var child := listing[j];
      ListOneMore(listing, j, true);
      ListOneMore(listing, j, false);
      if child.dir.symlink {
        continue;
      }
      if child.dir.marked {
        candidates' := candidates' + [child];
        if |candidates'| >= MAX_ROOTFS_CANDIDATES {
          assert all + Pick(listing, true) == candidates' + Pick(listing, true)[|Pick(listing[..j + 1], true)|..];
          return;
        }
      } else {
        queue' := queue' + [child];
      }
    }
    assert listing[..|listing|] == listing;
  }

  /** The search of `iter_rootfs_candidates` reports the first sixteen of what an uncapped search would. */
  method IterRootfsCandidates(root: Dir) returns (candidates: seq<Entry>)
    ensures candidates == Cap(Uncapped(root))
  {
    hide Searching, Level, Uncapped, Children, FoundAbove, PickBelow, Pick;
    candidates := [];
    if root.marked {
      candidates := [Entry([], root)];
    }
    var queue := [Entry([], root)];
    ghost var d, i := 0, 0;
    SearchStarts(root);
    while queue != [] && |candidates| < MAX_ROOTFS_CANDIDATES
      invariant |candidates| < MAX_ROOTFS_CANDIDATES ==> Searching(root, d, i, queue, candidates)
      invariant |candidates| >= MAX_ROOTFS_CANDIDATES ==> candidates == Cap(Uncapped(root))
      decreases MAX_ROOTFS_DEPTH + 1 - d, |Level(root, d)| - i
    {
      d, i := NextLevel(root, d, i, queue, candidates);
      SearchStep(root, d, i, queue, candidates);
      ghost var all := FoundAbove(root, d) + PickBelow(Level(root, d)[..i], true);
      var listing := Children(queue[0]);
      ghost var expected := queue[1..] + Pick(listing, false);
      queue, candidates := VisitListing(listing, queue[1..], candidates, all);
      i := i + 1;
      assert Searching(root, d, i, expected, candidates);
      if |candidates| >= MAX_ROOTFS_CANDIDATES {
        SearchedPrefix(root, d, i, expected, candidates);
      }
    }
    if |candidates| < MAX_ROOTFS_CANDIDATES {
      SearchExhausted(root, d, i, candidates);
    }
  }

  // ---- What the search reports ----

  /** The directory `path` leads to, if every name on the way exists. */
  function NodeAt(root: Dir, path: Path): Option<Dir> {
    if path == [] then Some(root)
    else
      var parent := NodeAt(root, path[..|path| - 1]);
      var name := path[|path| - 1];
      if parent.Some? && name in parent.value.children then Some(parent.value.children[name]) else None
  }

  /** Listed by the search at its depth: reached through readable directories, each below the root real and unmarked. */
  predicate Reached(root: Dir, path: Path) {
    path == [] ||
    (var parent := NodeAt(root, path[..|path| - 1]);
     && |path| <= MAX_ROOTFS_DEPTH
     && Reached(root, path[..|path| - 1])
     && NodeAt(root, path).Some? && parent.value.readable && !NodeAt(root, path).value.symlink
     && (|path| > 1 ==> !parent.value.marked))
  }

  /** A real directory the search may report or go on below, according to its marker. */
  predicate Wanted(root: Dir, path: Path, marked: bool) {
    && Reached(root, path) && NodeAt(root, path).Some?
    && (path == [] || NodeAt(root, path).value.marked == marked)
  }

  lemma ChildrenIn(entry: Entry, e: Entry)
    ensures e in Children(entry) <==>
            && |entry.path| < MAX_ROOTFS_DEPTH && entry.dir.readable
            && e.path != [] && e.path[..|e.path| - 1] == entry.path
            && e.path[|e.path| - 1] in entry.dir.children
            && e.dir == entry.dir.children[e.path[|e.path| - 1]]
  {
    var names := SortedTexts(entry.dir.children.Keys);
    var listing := Children(entry);
    if e in listing {
      var i :| 0 <= i < |listing| && listing[i] == e;
      assert names[i] in names;
    }
    if |entry.path| < MAX_ROOTFS_DEPTH && entry.dir.readable && e.path != [] && e.path[..|e.path| - 1] == entry.path {
      var name := e.path[|e.path| - 1];
      if name in entry.dir.children && e.dir == entry.dir.children[name] {
        assert name in names;
        var i :| 0 <= i < |names| && names[i] == name;
        assert e.path == entry.path + [name];
        assert listing[i] == e;
      }
    }
  }

  lemma {:induction false} PickBelowIn(entries: seq<Entry>, marked: bool, e: Entry)
    ensures e in PickBelow(entries, marked) <==>
            !e.dir.symlink && e.dir.marked == marked && exists p :: p in entries && e in Children(p)
  {
    hide Children, Pick;
    if entries != [] {
      var n := |entries| - 1;
      PickBelowIn(entries[..n], marked, e);
      PickIn(Children(entries[n]), marked, e);
      assert entries == entries[..n] + [entries[n]];
    }
  }

  /** The level at depth `d` holds exactly the unmarked directories reached at that depth. */
  lemma {:induction false} LevelExact(root: Dir, d: nat, e: Entry)
    ensures e in Level(root, d) <==> |e.path| == d && Wanted(root, e.path, false) && NodeAt(root, e.path) == Some(e.dir)
    decreases d, 0
  {
    if d == 0 {
      assert e in Level(root, 0) <==> e == Entry([], root);
    } else {
      BelowExact(root, d - 1, false, e);
    }
  }

  /** Listing a level yields exactly the real directories with the given marker one step further down. */
  lemma {:induction false} BelowExact(root: Dir, d: nat, marked: bool, e: Entry)
    ensures e in PickBelow(Level(root, d), marked) <==>
            |e.path| == d + 1 && Wanted(root, e.path, marked) && NodeAt(root, e.path) == Some(e.dir)
    decreases d, 1
  {
    hide Children, Level, PickBelow;
    PickBelowIn(Level(root, d), marked, e);
    if p :| p in Level(root, d) && e in Children(p) {
      ChildrenIn(p, e);
      LevelExact(root, d, p);
    }
    if |e.path| == d + 1 && Wanted(root, e.path, marked) && NodeAt(root, e.path) == Some(e.dir) {
      var up := e.path[..d];
      var p := Entry(up, NodeAt(root, up).value);
      LevelExact(root, d, p);
      ChildrenIn(p, e);
    }
  }

  lemma {:induction false} FoundAboveExact(root: Dir, d: nat, e: Entry)
    ensures e in FoundAbove(root, d) <==>
            |e.path| <= d && Wanted(root, e.path, true) && NodeAt(root, e.path) == Some(e.dir) && e.dir.marked
  {
    hide PickBelow, Level, FoundAbove;
    if d == 0 {
      LevelZero(root);
    } else {
      hide NodeAt, Reached;
      LevelNext(root, d - 1);
      FoundAboveExact(root, d - 1, e);
      BelowExact(root, d - 1, true, e);
    }
  }

  /** A path the uncapped search reports: a marked directory reached through readable ancestors that,
      the root excepted, are real and unmarked, at most six levels down. */
  ghost predicate Reportable(root: Dir, path: Path) {
    && |path| <= 6
    && NodeAt(root, path).Some? && NodeAt(root, path).value.marked
    && (path != [] ==> !NodeAt(root, path).value.symlink)
    && (forall k :: 0 <= k < |path| ==> NodeAt(root, path[..k]).Some? && NodeAt(root, path[..k]).value.readable)
    && (forall k :: 0 < k < |path| ==> !NodeAt(root, path[..k]).value.symlink && !NodeAt(root, path[..k]).value.marked)
  }

  lemma {:induction false} ReachedAncestors(root: Dir, path: Path)
    ensures Reached(root, path) <==>
            && |path| <= 6 && NodeAt(root, path).Some?
            && (path != [] ==> !NodeAt(root, path).value.symlink)
            && (forall k :: 0 <= k < |path| ==> NodeAt(root, path[..k]).Some? && NodeAt(root, path[..k]).value.readable)
            && (forall k :: 0 < k < |path| ==> !NodeAt(root, path[..k]).value.symlink && !NodeAt(root, path[..k]).value.marked)
  {
    if path != [] {
      var n := |path| - 1;
      var up := path[..n];
      ReachedAncestors(root, up);
      assert forall k :: 0 <= k < n ==> up[..k] == path[..k];
    }
  }

  /** Completeness and soundness of the uncapped search. */
  lemma UncappedExact(root: Dir, e: Entry)
    ensures e in Uncapped(root) <==> Reportable(root, e.path) && NodeAt(root, e.path) == Some(e.dir)
  {
    FoundAboveExact(root, MAX_ROOTFS_DEPTH + 1, e);
    ReachedAncestors(root, e.path);
  }

  /** No result other than the root lies above another. */
  lemma NoNesting(root: Dir, outer: Path, inner: Path)
    requires Reportable(root, outer) && Reportable(root, inner)
    requires outer != []
    ensures !(outer < inner)
  {
    assert outer <= inner ==> inner[..|outer|] == outer;
  }

  // ---- Order of the results ----

  predicate PathLt(a: Path, b: Path) {
    a != b && Lex(StrLe, a, b)
  }

  /** Shallower first, and by name within a depth. */
  predicate Before(a: Entry, b: Entry) {
    |a.path| < |b.path| || (|a.path| == |b.path| && PathLt(a.path, b.path))
  }

  ghost predicate Ordered(entries: seq<Entry>) {
    forall i, j :: 0 <= i < j < |entries| ==> Before(entries[i], entries[j])
  }

  lemma OrderedJoin(a: seq<Entry>, b: seq<Entry>)
    requires Ordered(a) && Ordered(b)
    requires forall x, y :: x in a && y in b ==> Before(x, y)
    ensures Ordered(a + b)
  {
    hide Before;
    var ab := a + b;
    forall i, j | 0 <= i < j < |ab| ensures Before(ab[i], ab[j]) {
      if i < |a| <= j {
        assert a[i] in a && b[j - |a|] in b;
      }
    }
  }

  lemma {:induction false} PickOrdered(entries: seq<Entry>, marked: bool)
    requires Ordered(entries)
    ensures Ordered(Pick(entries, marked))
  {
    hide Before;
    if entries != [] {
      var n := |entries| - 1;
      PickOrdered(entries[..n], marked);
      forall x | x in Pick(entries[..n], marked) ensures Before(x, entries[n]) {
        PickIn(entries[..n], marked, x);
        var i :| 0 <= i < n && entries[i] == x;
      }
      OrderedJoin(Pick(entries[..n], marked), [entries[n]]);
    }
  }

  lemma ChildrenOrdered(entry: Entry)
    ensures Ordered(Children(entry))
  {
    var names := SortedTexts(entry.dir.children.Keys);
    var listing := Children(entry);
    forall i, j | 0 <= i < j < |listing| ensures Before(listing[i], listing[j]) {
      SiblingOrder(entry.path, names[i], names[j]);
    }
  }

  lemma SiblingOrder(path: Path, x: string, y: string)
    requires StrLe(x, y) && x != y
    ensures PathLt(path + [x], path + [y])
  {
    LexCommonPrefix(StrLe, path, [x], [y]);
    assert (path + [x])[|path|] != (path + [y])[|path|];
  }

  lemma {:induction false} CousinOrder(a: Path, x: string, b: Path, y: string)
    requires |a| == |b| && PathLt(a, b)
    ensures PathLt(a + [x], b + [y])
  {
    assert (a + [x])[..|a|] == a && (b + [y])[..|b|] == b;
    if a[0] == b[0] {
      assert (a + [x])[1..] == a[1..] + [x] && (b + [y])[1..] == b[1..] + [y];
      assert a == [a[0]] + a[1..] && b == [b[0]] + b[1..];
      CousinOrder(a[1..], x, b[1..], y);
    }
  }

  lemma ChildrenBefore(p: Entry, q: Entry, x: Entry, y: Entry)
    requires |p.path| == |q.path| && Before(p, q) && x in Children(p) && y in Children(q)
    ensures Before(x, y)
  {
    ChildrenIn(p, x);
    ChildrenIn(q, y);
    var n := |p.path|;
    CousinOrder(p.path, x.path[n], q.path, y.path[n]);
    assert x.path == p.path + [x.path[n]] && y.path == q.path + [y.path[n]];
  }

  lemma {:induction false} PickBelowOrdered(entries: seq<Entry>, marked: bool, d: nat)
    requires Ordered(entries) && forall e :: e in entries ==> |e.path| == d
    ensures Ordered(PickBelow(entries, marked))
  {
    if entries != [] {
      hide Before, Children;
      var n := |entries| - 1;
      var last := entries[n];
      assert last in entries;
      PickBelowOrdered(entries[..n], marked, d);
      ChildrenOrdered(last);
      PickOrdered(Children(last), marked);
      forall x, y | x in PickBelow(entries[..n], marked) && y in Pick(Children(last), marked) ensures Before(x, y) {
        PickBelowIn(entries[..n], marked, x);
        PickIn(Children(last), marked, y);
        var p :| p in entries[..n] && x in Children(p);
        var i :| 0 <= i < n && entries[i] == p;
        ChildrenBefore(p, last, x, y);
      }
      OrderedJoin(PickBelow(entries[..n], marked), Pick(Children(last), marked));
    }
  }

  lemma {:induction false} LevelOrdered(root: Dir, d: nat)
    ensures Ordered(Level(root, d))
  {
    hide Level, PickBelow, Before;
    if d == 0 {
      LevelZero(root);
    } else {
      LevelNext(root, d - 1);
      LevelOrdered(root, d - 1);
      LevelLengths(root, d - 1);
      PickBelowOrdered(Level(root, d - 1), false, d - 1);
    }
  }

  lemma {:induction false} FoundAboveOrdered(root: Dir, d: nat)
    ensures Ordered(FoundAbove(root, d)) && forall e :: e in FoundAbove(root, d) ==> |e.path| <= d
  {
    hide PickBelow, Level, FoundAbove;
    if d == 0 {
      LevelZero(root);
    } else {
      LevelNext(root, d - 1);
      FoundAboveOrdered(root, d - 1);
      LevelOrdered(root, d - 1);
      LevelLengths(root, d - 1);
      PickBelowOrdered(Level(root, d - 1), true, d - 1);
      PickLengths(Level(root, d - 1), true, d - 1);
      OrderedJoin(FoundAbove(root, d - 1), PickBelow(Level(root, d - 1), true));
    }
  }

  /** What `iter_rootfs_candidates` returns: at most sixteen distinct directories, none deeper than six, in order
      of depth and then of name, none but the root above another; and, when fewer than sixteen, exactly the reportable ones. */
  lemma ResultsCharacterised(root: Dir)
    ensures var result := Cap(Uncapped(root));
            && |result| <= 16
            && result <= Uncapped(root)
            && Ordered(result)
            && (forall e :: e in result ==> Reportable(root, e.path) && NodeAt(root, e.path) == Some(e.dir))
            && (|result| < 16 ==>
                  forall e: Entry :: Reportable(root, e.path) && NodeAt(root, e.path) == Some(e.dir) ==> e in result)
            && (forall a, b :: a in result && b in result && a.path != [] ==> !(a.path < b.path))
  {
    hide Uncapped, Before, Reportable, NodeAt;
    var result := Cap(Uncapped(root));
    UncappedOrdered(root);
    forall e ensures e in Uncapped(root) <==> Reportable(root, e.path) && NodeAt(root, e.path) == Some(e.dir) {
      UncappedExact(root, e);
    }
    forall a, b | a in result && b in result && a.path != [] ensures !(a.path < b.path) {
      NoNesting(root, a.path, b.path);
    }
  }

  lemma UncappedOrdered(root: Dir)
    ensures Ordered(Uncapped(root))
  {
    FoundAboveOrdered(root, MAX_ROOTFS_DEPTH + 1);
  }
}
