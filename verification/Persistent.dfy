/** CVEs that matched a component in both inventories. */
module Persistent {
  import opened Text
  import opened Ordering
  import opened Components

  datatype Match = Match(component: Component, cves: seq<string>)

  datatype PersistentVulnerability = PersistentVulnerability(
    component: string,
    cve: string,
    oldVersion: string,
    newVersion: string)

  type Index = map<string, Match>

  /** The dictionary comprehension over matches: a later match of the same name replaces an earlier one. */
  function IndexOf(matches: seq<Match>): Index {
    if matches == [] then map[]
    else
      var last := matches[|matches| - 1];
      IndexOf(matches[..|matches| - 1])[last.component.Key() := last]
  }

  /** It holds the last match of each name. */
  lemma {:induction false} IndexIsLast(matches: seq<Match>, i: nat)
    requires i < |matches|
    requires forall j :: i < j < |matches| ==> matches[j].component.Key() != matches[i].component.Key()
    ensures matches[i].component.Key() in IndexOf(matches) && IndexOf(matches)[matches[i].component.Key()] == matches[i]
  {
    var n := |matches| - 1;
    if i < n {
      assert forall j :: i < j < n ==> matches[..n][j] == matches[j];
      IndexIsLast(matches[..n], i);
    }
  }

  predicate Shared(older: Index, newer: Index, name: string, cve: string) {
    name in older && name in newer && cve in older[name].cves && cve in newer[name].cves
  }

  function EntryFor(older: Index, newer: Index, name: string, cve: string): PersistentVulnerability
    requires name in older && name in newer
  {
    PersistentVulnerability(newer[name].component.name, cve, older[name].component.version, newer[name].component.version)
  }

  /** The (name, CVE) pairs both inventories matched. */
  function SharedPairs(older: Index, newer: Index): set<(string, string)> {
    set name, cve | name in older && name in newer && cve in older[name].cves && cve in newer[name].cves :: (name, cve)
  }

  /** One entry for each pair both inventories matched, in the order of name and then CVE. */
  function Entries(older: Index, newer: Index): seq<PersistentVulnerability> {
    var pairs := SortedPairs(SharedPairs(older, newer));
    seq(|pairs|, i requires 0 <= i < |pairs| => assert pairs[i] in pairs; EntryFor(older, newer, pairs[i].0, pairs[i].1))
  }

  /** Match `i` is the last one of its name. */
  predicate IsLast(matches: seq<Match>, i: nat) {
    i < |matches| && forall j | i < j < |matches| :: matches[j].component.Key() != matches[i].component.Key()
  }

  lemma {:induction false} LastOf(matches: seq<Match>, name: string) returns (i: nat)
    requires name in IndexOf(matches)
    ensures IsLast(matches, i) && matches[i].component.Key() == name && IndexOf(matches)[name] == matches[i]
  {
    var n := |matches| - 1;
    if matches[n].component.Key() == name {
      i := n;
    } else {
      i := LastOf(matches[..n], name);
      assert forall j :: i < j < n ==> matches[..n][j] == matches[j];
    }
  }

  /** The last matches `i` and `j` of one name both have the CVE of the entry, which names the newer component and both
      versions, the old one first. */
  ghost predicate Persists(older: seq<Match>, newer: seq<Match>, i: nat, j: nat, e: PersistentVulnerability) {
    && IsLast(older, i) && IsLast(newer, j) && older[i].component.Key() == newer[j].component.Key()
    && e.cve in older[i].cves && e.cve in newer[j].cves
    && e.component == newer[j].component.name
    && e.oldVersion == older[i].component.version && e.newVersion == newer[j].component.version
  }

  /** An entry is listed exactly when the last matches of a name in both inventories have its CVE. */
  lemma EntriesExact(older: seq<Match>, newer: seq<Match>, e: PersistentVulnerability)
    ensures e in Entries(IndexOf(older), IndexOf(newer)) <==> exists i: nat, j: nat :: Persists(older, newer, i, j, e)
  {
    hide IndexOf, IsLast, Entries, EntryFor;
    var o, n := IndexOf(older), IndexOf(newer);
    if e in Entries(o, n) {
      var name := ListedName(o, n, e);
      var i := LastOf(older, name);
      var j := LastOf(newer, name);
      PersistsSo(older, newer, i, j, e);
    }
    if i: nat, j: nat :| Persists(older, newer, i, j, e) {
      PersistingIsListed(older, newer, i, j, e);
    }
  }

  lemma PersistsSo(older: seq<Match>, newer: seq<Match>, i: nat, j: nat, e: PersistentVulnerability)
    requires IsLast(older, i) && IsLast(newer, j)
    requires var o, n, name := IndexOf(older), IndexOf(newer), older[i].component.Key();
             && newer[j].component.Key() == name && Shared(o, n, name, e.cve) && e == EntryFor(o, n, name, e.cve)
             && o[name] == older[i] && n[name] == newer[j]
    ensures Persists(older, newer, i, j, e)
  {
    hide IndexOf, IsLast;
  }

  lemma PersistingIsListed(older: seq<Match>, newer: seq<Match>, i: nat, j: nat, e: PersistentVulnerability)
    requires Persists(older, newer, i, j, e)
    ensures e in Entries(IndexOf(older), IndexOf(newer))
  {
    hide IndexOf, Entries;
    IndexedLast(older, i);
    IndexedLast(newer, j);
    Listed(IndexOf(older), IndexOf(newer), older[i].component.Key(), e);
  }

  lemma {:induction false} IndexKeys(matches: seq<Match>, name: string)
    ensures name in IndexOf(matches) ==> IndexOf(matches)[name].component.Key() == name
  {
    if matches != [] {
      IndexKeys(matches[..|matches| - 1], name);
    }
  }

  /** Entries come in strict order of name and then CVE. */
  lemma EntriesInOrder(older: seq<Match>, newer: seq<Match>, i: nat, j: nat)
    requires i < j < |Entries(IndexOf(older), IndexOf(newer))|
    ensures var entries := Entries(IndexOf(older), IndexOf(newer));
            var first, second := Normal(entries[i].component), Normal(entries[j].component);
            if first != second then StrLe(first, second)
            else StrLe(entries[i].cve, entries[j].cve) && entries[i].cve != entries[j].cve
  {
    hide IndexOf, StrLe;
    var o, n := IndexOf(older), IndexOf(newer);
    EntriesAre(o, n);
    var pairs := SortedPairs(SharedPairs(o, n));
    IndexKeys(newer, pairs[i].0);
    IndexKeys(newer, pairs[j].0);
    assert PairLe(pairs[i], pairs[j]) && pairs[i] != pairs[j];
  }

  lemma IndexedLast(matches: seq<Match>, i: nat)
    requires IsLast(matches, i)
    ensures var name := matches[i].component.Key(); name in IndexOf(matches) && IndexOf(matches)[name] == matches[i]
  {
    IndexIsLast(matches, i);
  }

  lemma ListedName(older: Index, newer: Index, e: PersistentVulnerability) returns (name: string)
    requires e in Entries(older, newer)
    ensures Shared(older, newer, name, e.cve) && e == EntryFor(older, newer, name, e.cve)
  {
    var pairs := SortedPairs(SharedPairs(older, newer));
    var i :| 0 <= i < |Entries(older, newer)| && Entries(older, newer)[i] == e;
    assert pairs[i] in pairs;
    name := pairs[i].0;
  }

  lemma Listed(older: Index, newer: Index, name: string, e: PersistentVulnerability)
    requires Shared(older, newer, name, e.cve) && e == EntryFor(older, newer, name, e.cve)
    ensures e in Entries(older, newer)
  {
    var pairs := SortedPairs(SharedPairs(older, newer));
    assert (name, e.cve) in pairs;
    var i :| 0 <= i < |pairs| && pairs[i] == (name, e.cve);
    assert Entries(older, newer)[i] == e;
  }

  /** Entries gathered so far and the pairs they stand for, in the order of name and then CVE. */
  ghost predicate Lists(older: Index, newer: Index, entries: seq<PersistentVulnerability>, pairs: seq<(string, string)>) {
    && |entries| == |pairs| && Increasing(PairLe, pairs)
    && forall k :: 0 <= k < |pairs| ==>
         Shared(older, newer, pairs[k].0, pairs[k].1) && entries[k] == EntryFor(older, newer, pairs[k].0, pairs[k].1)
  }

  lemma ListsNext(older: Index, newer: Index, entries: seq<PersistentVulnerability>, pairs: seq<(string, string)>,
                  name: string, cve: string)
    requires Lists(older, newer, entries, pairs) && Shared(older, newer, name, cve)
    requires forall p :: p in pairs ==> PairLe(p, (name, cve)) && p != (name, cve)
    ensures Lists(older, newer, entries + [EntryFor(older, newer, name, cve)], pairs + [(name, cve)])
  {
    hide PairLe;
    assert forall k :: 0 <= k < |pairs| ==> pairs[k] in pairs;
  }

  /** The inner loop: the CVEs shared under one name, all names so far being smaller. */
  method ListName(older: Index, newer: Index, name: string, entries: seq<PersistentVulnerability>,
                  ghost pairs: seq<(string, string)>)
    returns (entries': seq<PersistentVulnerability>, ghost pairs': seq<(string, string)>)
    requires name in older && name in newer && Lists(older, newer, entries, pairs)
    requires forall p :: p in pairs ==> StrLe(p.0, name) && p.0 != name
    ensures Lists(older, newer, entries', pairs')
    ensures forall p :: p in pairs' <==> p in pairs || (p.0 == name && Shared(older, newer, name, p.1))
  {
    hide Lists, EntryFor, StrLe;
    entries', pairs' := entries, pairs;
    var oldCves := set cve | cve in older[name].cves;
    var newCves := set cve | cve in newer[name].cves;
    var cves := SortedTexts(oldCves * newCves);
    for k := 0 to |cves|
      invariant Lists(older, newer, entries', pairs')
      invariant forall p :: p in pairs' <==> p in pairs || (p.0 == name && p.1 in cves[..k])
    {
      var cve := cves[k];
      assert cve in cves;
      TakeNext(cves, k);
      forall p | p in pairs' ensures PairLe(p, (name, cve)) && p != (name, cve) {
        if p !in pairs {
          var m :| 0 <= m < k && cves[m] == p.1;
        }
      }
      ListsNext(older, newer, entries', pairs', name, cve);
      entries' := entries' + [EntryFor(older, newer, name, cve)];
      pairs' := pairs' + [(name, cve)];
    }
    assert cves[..|cves|] == cves;
  }

  /** The loops of `diff_vulnerabilities`. */
  method DiffVulnerabilities(oldMatches: seq<Match>, newMatches: seq<Match>) returns (entries: seq<PersistentVulnerability>)
    ensures entries == Entries(IndexOf(oldMatches), IndexOf(newMatches))
  {
    hide Lists, StrLe, Entries;
    var older := BuildIndex(oldMatches);
    var newer := BuildIndex(newMatches);
    entries := [];
    ghost var pairs: seq<(string, string)> := [];
    ListsNothing(older, newer);
    var names := SortedTexts(older.Keys * newer.Keys);
    for i := 0 to |names|
      invariant Lists(older, newer, entries, pairs)
      invariant forall p :: p in pairs <==> p.0 in names[..i] && Shared(older, newer, p.0, p.1)
    {
      var name := names[i];
      assert name in names;
      TakeNext(names, i);
      forall p | p in pairs ensures StrLe(p.0, name) && p.0 != name {
        var m :| 0 <= m < i && names[m] == p.0;
      }
      entries, pairs := ListName(older, newer, name, entries, pairs);
    }
    assert names[..|names|] == names;
    ListsAll(older, newer, entries, pairs);
  }

  lemma SharedPairsAre(older: Index, newer: Index)
    ensures forall p :: p in SharedPairs(older, newer) <==> Shared(older, newer, p.0, p.1)
  {
  }

  lemma PairsAre(older: Index, newer: Index, entries: seq<PersistentVulnerability>, pairs: seq<(string, string)>)
    requires Lists(older, newer, entries, pairs)
    requires forall p :: p in pairs <==> Shared(older, newer, p.0, p.1)
    ensures pairs == SortedPairs(SharedPairs(older, newer))
  {
    hide EntryFor, PairLe, SharedPairs, Shared;
    SharedPairsAre(older, newer);
    PairOrder();
    IncreasingUnique(PairLe, pairs, SortedPairs(SharedPairs(older, newer)));
  }

  lemma EntriesAre(older: Index, newer: Index)
    ensures var pairs := SortedPairs(SharedPairs(older, newer));
            |Entries(older, newer)| == |pairs| && forall i :: 0 <= i < |pairs| ==>
              pairs[i].0 in older && pairs[i].0 in newer && Entries(older, newer)[i] == EntryFor(older, newer, pairs[i].0, pairs[i].1)
  {
    hide EntryFor;
    var pairs := SortedPairs(SharedPairs(older, newer));
    assert forall i :: 0 <= i < |pairs| ==> pairs[i] in pairs;
  }

  lemma ListsAll(older: Index, newer: Index, entries: seq<PersistentVulnerability>, pairs: seq<(string, string)>)
    requires Lists(older, newer, entries, pairs)
    requires forall p :: p in pairs <==> Shared(older, newer, p.0, p.1)
    ensures entries == Entries(older, newer)
  {
    hide Entries, SharedPairs, PairLe, EntryFor;
    PairsAre(older, newer, entries, pairs);
    EntriesAre(older, newer);
  }

  lemma ListsNothing(older: Index, newer: Index)
    ensures Lists(older, newer, [], [])
  {
  }

  method BuildIndex(matches: seq<Match>) returns (index: Index)
    ensures index == IndexOf(matches)
  {
    index := map[];
    for i := 0 to |matches|
      invariant index == IndexOf(matches[..i])
    {
      assert matches[..i + 1][..i] == matches[..i];
      index := index[matches[i].component.Key() := matches[i]];
    }
    assert matches[..|matches|] == matches;
  }
}
