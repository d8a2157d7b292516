/** Batching of CVE identifiers into EPSS queries. */
module Epss {
  import opened CveRecords

  const MAX_CVE_QUERY_CHARS := 2000

  /** `",".join(chunk)`. */
  function Joined(chunk: seq<string>): string {
    if chunk == [] then ""
    else if |chunk| == 1 then chunk[0]
    else Joined(chunk[..|chunk| - 1]) + "," + chunk[|chunk| - 1]
  }

  /** A chunk one query may carry: short enough, or a single identifier that cannot be split. */
  predicate Fits(chunk: seq<string>) {
    |chunk| <= 1 || |Joined(chunk)| <= 2000
  }

  function TotalLength(chunk: seq<string>): nat {
    if chunk == [] then 0 else |chunk[0]| + TotalLength(chunk[1..])
  }

  lemma {:induction false} TotalLengthAppend(chunk: seq<string>, last: string)
    ensures TotalLength(chunk + [last]) == TotalLength(chunk) + |last|
  {
    if chunk == [] {
      assert [last][1..] == [];
    } else {
      assert (chunk + [last])[1..] == chunk[1..] + [last];
      TotalLengthAppend(chunk[1..], last);
    }
  }

  /** Joining adds one comma between each two identifiers. */
  lemma {:induction false} JoinedExactly(chunk: seq<string>)
    requires chunk != []
    ensures |Joined(chunk)| == TotalLength(chunk) + |chunk| - 1
    ensures |chunk| > 1 ==> Joined(chunk) == Joined(chunk[..|chunk| - 1]) + "," + chunk[|chunk| - 1]
  {
    var n := |chunk| - 1;
    TotalLengthAppend(chunk[..n], chunk[n]);
    assert chunk == chunk[..n] + [chunk[n]];
    if n > 0 {
      JoinedExactly(chunk[..n]);
    }
  }

  function Flatten(chunks: seq<seq<string>>): seq<string> {
    if chunks == [] then [] else chunks[0] + Flatten(chunks[1..])
  }

  /** Nonempty fitting chunks, none of which had room for the first element of the next. */
  ghost predicate Greedy(chunks: seq<seq<string>>) {
    && (forall i :: 0 <= i < |chunks| ==> chunks[i] != [] && Fits(chunks[i]))
    && (forall i :: 0 <= i < |chunks| - 1 ==> !Fits(chunks[i] + [chunks[i + 1][0]]))
  }

  /** Any way to cut `cves` into consecutive chunks that obey the same rule. */
  ghost predicate IsSplit(chunks: seq<seq<string>>, cves: seq<string>) {
    Flatten(chunks) == cves && forall i :: 0 <= i < |chunks| ==> Fits(chunks[i])
  }

  lemma {:induction false} FlattenAppend(chunks: seq<seq<string>>, last: seq<string>)
    ensures Flatten(chunks + [last]) == Flatten(chunks) + last
  {
    if chunks == [] {
      assert (chunks + [last])[1..] == [];
    } else {
      assert (chunks + [last])[1..] == chunks[1..] + [last];
      FlattenAppend(chunks[1..], last);
    }
  }

  lemma JoinedAppend(chunk: seq<string>, x: string)
    ensures |Joined(chunk + [x])| == |Joined(chunk)| + |x| + if chunk == [] then 0 else 1
  {
    assert (chunk + [x])[..|chunk|] == chunk;
  }

  lemma {:induction false} JoinedPrefix(chunk: seq<string>, n: nat)
    requires n <= |chunk|
    ensures |Joined(chunk[..n])| <= |Joined(chunk)|
  {
    if n < |chunk| {
      JoinedPrefix(chunk[..|chunk| - 1], n);
      assert chunk[..|chunk| - 1][..n] == chunk[..n];
    } else {
      assert chunk[..n] == chunk;
    }
  }

  lemma {:induction false} JoinedSuffix(chunk: seq<string>, n: nat)
    requires n <= |chunk|
    ensures |Joined(chunk[n..])| <= |Joined(chunk)|
  {
    if n < |chunk| - 1 {
      var shorter := chunk[..|chunk| - 1];
      JoinedSuffix(shorter, n);
      assert chunk[n..][..|chunk[n..]| - 1] == shorter[n..];
    } else if n == |chunk| - 1 {
      assert chunk[n..] == [chunk[n]];
    }
  }

  /** Every consecutive part of a fitting chunk fits. */
  lemma PartFits(chunk: seq<string>, from: nat, to: nat)
    requires from <= to <= |chunk| && Fits(chunk)
    ensures Fits(chunk[from..to])
  {
    JoinedPrefix(chunk, to);
    JoinedSuffix(chunk[..to], from);
    assert chunk[..to][from..] == chunk[from..to];
  }

  /** Greedy stays ahead: no split of a list that ends with the greedy one's has fewer chunks. */
  lemma {:induction false} GreedyStaysAhead(chunks: seq<seq<string>>, split: seq<seq<string>>, skipped: seq<string>)
    requires Greedy(chunks)
    requires IsSplit(split, skipped + Flatten(chunks))
    ensures |chunks| <= |split|
    decreases |split|
  {
    if chunks != [] {
      var all := skipped + Flatten(chunks);
      assert all != [] && split != [] by { assert chunks[0] != []; }
      var other := split[0];
      var rest := Flatten(split[1..]);
      assert all == other + rest;
      if |skipped| >= |other| {
        assert rest == skipped[|other|..] + Flatten(chunks) by { assert all[|other|..] == rest; }
        GreedyStaysAhead(chunks, split[1..], skipped[|other|..]);
      } else {
        FirstReachesFurther(chunks, other, rest, skipped);
        var left := (skipped + chunks[0])[|other|..];
        assert rest == left + Flatten(chunks[1..]) by {
          assert all[|other|..] == rest;
          assert all == (skipped + chunks[0]) + Flatten(chunks[1..]);
        }
        GreedyStaysAhead(chunks[1..], split[1..], left);
      }
    }
  }

  lemma OverlapIs(other: seq<string>, rest: seq<string>, skipped: seq<string>, first: seq<string>, tail: seq<string>)
    requires other + rest == skipped + (first + tail)
    requires |other| > |skipped| + |first| && tail != []
    ensures other[|skipped|..|skipped| + |first| + 1] == first + [tail[0]]
  {
    var all := other + rest;
    assert all[|skipped|..] == first + tail;
    assert all[|skipped|..][..|first| + 1] == first + [tail[0]];
    assert all[..|other|] == other;
  }

  lemma FirstReachesFurther(chunks: seq<seq<string>>, other: seq<string>, rest: seq<string>, skipped: seq<string>)
    requires Greedy(chunks) && chunks != [] && Fits(other)
    requires other + rest == skipped + Flatten(chunks)
    ensures |other| <= |skipped + chunks[0]|
  {
    hide Joined, Fits;
    var first := chunks[0];
    var tail := Flatten(chunks[1..]);
    var end := |skipped| + |first|;
    assert Flatten(chunks) == first + tail;
    assert tail != [] ==> |chunks| > 1 && chunks[1] != [] && tail == chunks[1] + Flatten(chunks[1..][1..]);
    hide Flatten;
    if |other| > end {
      assert |other + rest| == end + |tail|;
      assert tail[0] == chunks[1][0];
      PartFits(other, |skipped|, end + 1);
      OverlapIs(other, rest, skipped, first, tail);
      assert false;
    }
  }

  lemma GreedyIsEnough(chunks: seq<seq<string>>, cves: seq<string>)
    requires Greedy(chunks) && Flatten(chunks) == cves
    ensures forall i :: 0 <= i < |chunks| ==> chunks[i] != [] && Fits(chunks[i])
    ensures forall split :: IsSplit(split, cves) ==> |chunks| <= |split|
  {
    forall split | IsSplit(split, cves) ensures |chunks| <= |split| {
      assert [] + Flatten(chunks) == cves;
      GreedyStaysAhead(chunks, split, []);
    }
  }

  lemma FittingLength(chunks: seq<seq<string>>)
    requires forall i :: 0 <= i < |chunks| ==> chunks[i] != [] && Fits(chunks[i])
    ensures forall i :: 0 <= i < |chunks| ==> |chunks[i]| == 1 || TotalLength(chunks[i]) + |chunks[i]| - 1 <= 2000
  {
    hide Joined, TotalLength;
    forall i | 0 <= i < |chunks| ensures |chunks[i]| == 1 || TotalLength(chunks[i]) + |chunks[i]| - 1 <= 2000 {
      JoinedExactly(chunks[i]);
    }
  }

  lemma GreedyOpens(chunks: seq<seq<string>>, current: seq<string>, cve: string)
    requires current != [] && Greedy(chunks + [current]) && !Fits(current + [cve])
    ensures Greedy(chunks + [current] + [[cve]])
  {
    var next := chunks + [current] + [[cve]];
    forall i | 0 <= i < |next| - 1 ensures !Fits(next[i] + [next[i + 1][0]]) {
      if i < |chunks| {
        assert next[i] == (chunks + [current])[i] && next[i + 1] == (chunks + [current])[i + 1];
      }
    }
  }

  lemma GreedyGrows(chunks: seq<seq<string>>, current: seq<string>, cve: string)
    requires Greedy(if current == [] then chunks else chunks + [current])
    requires current == [] ==> chunks == []
    requires Fits(current + [cve])
    ensures Greedy(chunks + [current + [cve]])
  {
    var next := chunks + [current + [cve]];
    assert forall k :: 0 <= k < |chunks| ==> next[k] == (chunks + [current])[k];
    forall i | 0 <= i < |next| - 1 ensures next[i] != [] && Fits(next[i]) && !Fits(next[i] + [next[i + 1][0]]) {
      var old' := chunks + [current];
      assert next[i] == old'[i] && next[i + 1][0] == old'[i + 1][0];
    }
  }

  /** What the loop of `_query_chunks` holds after `i` identifiers. */
  ghost predicate Batched(cves: seq<string>, i: nat, chunks: seq<seq<string>>, current: seq<string>, currentLength: nat)
    requires i <= |cves|
  {
    && Flatten(chunks) + current == cves[..i]
    && currentLength == |Joined(current)|
    && (current == [] ==> chunks == [])
    && Greedy(if current == [] then chunks else chunks + [current])
  }

  lemma BatchStarts(cves: seq<string>)
    ensures Batched(cves, 0, [], [], 0)
  {
  }

  lemma BatchOpens(cves: seq<string>, i: nat, chunks: seq<seq<string>>, current: seq<string>, currentLength: nat)
    requires i < |cves| && Batched(cves, i, chunks, current, currentLength)
    requires current != [] && currentLength + |cves[i]| + 1 > MAX_CVE_QUERY_CHARS
    ensures Batched(cves, i + 1, chunks + [current], [cves[i]], |cves[i]|)
  {
    hide Greedy;
    JoinedAppend(current, cves[i]);
    FlattenAppend(chunks, current);
    assert cves[..i + 1] == cves[..i] + [cves[i]];
    GreedyOpens(chunks, current, cves[i]);
  }

  lemma BatchGrows(cves: seq<string>, i: nat, chunks: seq<seq<string>>, current: seq<string>, currentLength: nat)
    requires i < |cves| && Batched(cves, i, chunks, current, currentLength)
    requires current == [] || currentLength + |cves[i]| + 1 <= MAX_CVE_QUERY_CHARS
    ensures Batched(cves, i + 1, chunks, current + [cves[i]], currentLength + |cves[i]| + if current == [] then 0 else 1)
  {
    hide Greedy;
    JoinedAppend(current, cves[i]);
    assert cves[..i + 1] == cves[..i] + [cves[i]];
    GreedyGrows(chunks, current, cves[i]);
  }

  lemma BatchDone(cves: seq<string>, chunks: seq<seq<string>>, current: seq<string>, currentLength: nat)
    requires Batched(cves, |cves|, chunks, current, currentLength)
    ensures var done := if current == [] then chunks else chunks + [current];
            Flatten(done) == cves && Greedy(done)
  {
    assert cves[..|cves|] == cves;
    FlattenAppend(chunks, current);
  }

  /** The loop of `_query_chunks`. The chunks concatenate to the list, each fits one query, and no
      order-preserving split under the same rule uses fewer. */
  method QueryChunks(cves: seq<string>) returns (chunks: seq<seq<string>>)
    ensures Flatten(chunks) == cves
    ensures forall i :: 0 <= i < |chunks| ==>
                          chunks[i] != [] && (|chunks[i]| == 1 || TotalLength(chunks[i]) + |chunks[i]| - 1 <= 2000)
    ensures forall split :: IsSplit(split, cves) ==> |chunks| <= |split|
  {
    hide Batched, Flatten, Joined, Greedy, IsSplit;
    chunks := [];
    var current: seq<string> := [];
    var currentLength: nat := 0;
    BatchStarts(cves);
    for i := 0 to |cves|
      invariant Batched(cves, i, chunks, current, currentLength)
    {
      var cve := cves[i];
      var addedLength := |cve| + if current != [] then 1 else 0;
      if current != [] && currentLength + addedLength > MAX_CVE_QUERY_CHARS {
        BatchOpens(cves, i, chunks, current, currentLength);
        chunks := chunks + [current];
        current := [];
        currentLength := 0;
        addedLength := |cve|;
        assert current + [cve] == [cve];
      } else {
        BatchGrows(cves, i, chunks, current, currentLength);
        assert addedLength == |cve| + if current == [] then 0 else 1;
      }
      current := current + [cve];
      currentLength := currentLength + addedLength;
    }
    ghost var done := if current == [] then chunks else chunks + [current];
    BatchDone(cves, chunks, current, currentLength);
    GreedyIsEnough(done, cves);
    FittingLength(done);
    if current != [] {
      chunks := chunks + [current];
    }
  }

  // ---- Normalised identifiers ----

  /** `list(dict.fromkeys(cve.strip().upper() for cve in cves if cve.strip()))`. */
  function NormalizedCves(cves: seq<string>): seq<string> {
    if cves == [] then []
    else
      var before := NormalizedCves(cves[..|cves| - 1]);
      var last := NormalCve(cves[|cves| - 1]);
      if last == "" || last in before then before else before + [last]
  }

  /** The first `i` identifiers hold `x` under some spelling. */
  predicate SeenBy(cves: seq<string>, i: nat, x: string)
    requires i <= |cves|
  {
    exists k | 0 <= k < i :: NormalCve(cves[k]) == x
  }

  lemma SeenPrefix(cves: seq<string>, n: nat, i: nat, x: string)
    requires i <= n <= |cves|
    ensures SeenBy(cves[..n], i, x) <==> SeenBy(cves, i, x)
  {
  }

  lemma SeenNext(cves: seq<string>, i: nat, x: string)
    requires i < |cves|
    ensures SeenBy(cves, i + 1, x) <==> SeenBy(cves, i, x) || NormalCve(cves[i]) == x
  {
  }

  /** Exactly the nonblank identifiers are kept. */
  lemma {:induction false} NormalizedMembers(cves: seq<string>, x: string)
    ensures x in NormalizedCves(cves) <==> x != "" && SeenBy(cves, |cves|, x)
  {
    if cves != [] {
      hide NormalCve, SeenBy;
      var n := |cves| - 1;
      NormalizedMembers(cves[..n], x);
      SeenPrefix(cves, n, n, x);
      SeenNext(cves, n, x);
    } else {
      assert !SeenBy(cves, 0, x);
    }
  }

  /** Each is kept once, in the order they first occur. */
  lemma {:induction false} NormalizedInOrder(cves: seq<string>, i: nat, j: nat) returns (k: nat)
    requires i < j < |NormalizedCves(cves)|
    ensures NormalizedCves(cves)[i] != NormalizedCves(cves)[j]
    ensures k <= |cves| && SeenBy(cves, k, NormalizedCves(cves)[i]) && !SeenBy(cves, k, NormalizedCves(cves)[j])
  {
    hide NormalCve, SeenBy;
    var n := |cves| - 1;
    var r, before := NormalizedCves(cves), NormalizedCves(cves[..n]);
    if j < |before| {
      k := NormalizedInOrder(cves[..n], i, j);
    } else {
      k := n;
      assert r[i] in before && r[j] !in before && r[j] != "";
      NormalizedMembers(cves[..n], r[i]);
      NormalizedMembers(cves[..n], r[j]);
    }
    SeenPrefix(cves, n, k, r[i]);
    SeenPrefix(cves, n, k, r[j]);
  }
}
