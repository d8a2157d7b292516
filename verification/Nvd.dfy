/** The rate-limited, caching NVD client. Time is counted in tenths of a second. */
module Nvd {
  import opened Options
  import opened Text
  import opened CveRecords

  /** A Python list: two references to it see the same contents. */
  class RecordList {
    var items: seq<CveRecord>

    constructor (items: seq<CveRecord>)
      ensures this.items == items
    {
      this.items := items;
    }
  }

  /** `(name.strip().lower(), version.strip())`. */
  type Key = (string, string)

  function KeyOf(name: string, version: string): Key {
    (Normal(name), Strip(version))
  }

  /** Two lookups share a cache entry exactly when their names agree up to case and outer blanks and their versions
      up to outer blanks. */
  lemma KeysExactly(n: string, v: string, m: string, w: string)
    ensures KeyOf(n, v) == KeyOf(m, w) <==> Normal(n) == Normal(m) && Strip(v) == Strip(w)
  {
    hide Normal, Strip;
  }

  const WINDOW := 300

  function Limit(apiKey: bool): nat {
    if apiKey then 50 else 5
  }

  function Interval(apiKey: bool): nat {
    WINDOW / Limit(apiKey)
  }

  /** A monotone clock, a sleep that waits at least as long as asked, and the network with the answers it has given. */
  class Clock {
    var now: nat
    ghost var exchanged: seq<Option<seq<CveRecord>>>

    method Monotonic() returns (reading: nat)
      modifies this
      ensures old(now) <= reading == now && exchanged == old(exchanged)
    {
      var passed: nat :| true;
      now := now + passed;
      reading := now;
    }

    method Sleep(ticks: nat)
      modifies this
      ensures old(now) + ticks <= now && exchanged == old(exchanged)
    {
      var passed: nat :| true;
      now := now + ticks + passed;
    }

    /** One HTTP exchange and the parsing of its body: any time may pass, any records may come, and it may fail. */
    method Exchange() returns (answer: Option<seq<CveRecord>>)
      modifies this
      ensures old(now) <= now && exchanged == old(exchanged) + [answer]
    {
      var passed: nat :| true;
      now := now + passed;
      answer :| true;
      exchanged := exchanged + [answer];
    }
  }

  /** A request as the outside world saw it, and the records kept for its key. */
  datatype Request = Request(key: Key, start: nat, finish: nat, records: seq<CveRecord>)

  /** Each request starts at least `interval` after the previous one finished. */
  predicate Paced(log: seq<Request>, interval: nat) {
    && (forall i | 0 <= i < |log| :: log[i].start <= log[i].finish)
    && (forall i | 0 < i < |log| :: log[i - 1].finish + interval <= log[i].start)
  }

  predicate OneRequestPerKey(log: seq<Request>) {
    forall i, j | 0 <= i < j < |log| :: log[i].key != log[j].key
  }

  /** How many requests start in the half-open window `[from, from + WINDOW)`. */
  function Starts(log: seq<Request>, from: nat): nat {
    if log == [] then 0
    else
      Starts(log[..|log| - 1], from) + if from <= log[|log| - 1].start < from + WINDOW then 1 else 0
  }

  lemma {:induction false} PacedSpacing(log: seq<Request>, interval: nat, i: nat, j: nat)
    requires Paced(log, interval) && i < j < |log|
    ensures log[i].start + interval <= log[j].start
    decreases j
  {
    if i < j - 1 {
      PacedSpacing(log, interval, i, j - 1);
    }
  }

  function Times(k: nat, interval: nat): nat {
    if k == 0 then 0 else Times(k - 1, interval) + interval
  }

  lemma {:induction false} TimesIsProduct(k: nat)
    ensures Times(k, 60) == 60 * k && Times(k, 6) == 6 * k
  {
    if k > 0 {
      TimesIsProduct(k - 1);
    }
  }

  /** The last of `n` starts in a window lies at least `n - 1` intervals after the window opens. */
  lemma {:induction false} StartsSpread(log: seq<Request>, interval: nat, from: nat) returns (last: nat)
    requires Paced(log, interval) && Starts(log, from) > 0
    ensures last < |log| && from + Times(Starts(log, from) - 1, interval) <= log[last].start < from + WINDOW
  {
    var n := |log| - 1;
    var before := log[..n];
    assert Paced(before, interval);
    if from <= log[n].start < from + WINDOW {
      last := n;
      if Starts(before, from) > 0 {
        var previous := StartsSpread(before, interval, from);
        PacedSpacing(log, interval, previous, n);
      }
    } else {
      last := StartsSpread(before, interval, from);
    }
  }

  /** NVD's documented policy: at most 5 requests, or 50 with a key, in any rolling 30 seconds. */
  lemma RateLimitHolds(log: seq<Request>, apiKey: bool, from: nat)
    requires Paced(log, Interval(apiKey))
    ensures Starts(log, from) <= Limit(apiKey)
  {
    if Starts(log, from) > 0 {
      var last := StartsSpread(log, Interval(apiKey), from);
      TimesIsProduct(Starts(log, from) - 1);
    }
  }

  /** The requests made so far are those of the known keys, one each, with the records kept for them. */
  ghost predicate Recorded(log: seq<Request>, answers: map<Key, seq<CveRecord>>) {
    && OneRequestPerKey(log)
    && (forall i :: 0 <= i < |log| ==> log[i].key in answers && answers[log[i].key] == log[i].records)
    && (forall key :: key in answers ==> exists i :: 0 <= i < |log| && log[i].key == key)
  }

  lemma RecordedNext(log: seq<Request>, answers: map<Key, seq<CveRecord>>, request: Request)
    requires Recorded(log, answers) && request.key !in answers
    ensures Recorded(log + [request], answers[request.key := request.records])
  {
    var next := log + [request];
    assert next[|log|] == request;
    forall key | key in answers ensures exists i :: 0 <= i < |next| && next[i].key == key {
      var i :| 0 <= i < |log| && log[i].key == key;
      assert next[i].key == key;
    }
  }

  lemma PacedNext(log: seq<Request>, interval: nat, request: Request)
    requires Paced(log, interval) && request.start <= request.finish
    requires log != [] ==> log[|log| - 1].finish + interval <= request.start
    ensures Paced(log + [request], interval)
  {
  }

  /** Some request was made for this normal name and stripped version. */
  ghost predicate Asked(log: seq<Request>, name: string, version: string) {
    exists i :: 0 <= i < |log| && log[i].key == (name, version)
  }

  lemma AskedExactly(log: seq<Request>, answers: map<Key, seq<CveRecord>>, name: string, version: string)
    requires Recorded(log, answers)
    ensures KeyOf(name, version) == (Normal(name), Strip(version))
    ensures KeyOf(name, version) in answers <==> Asked(log, Normal(name), Strip(version))
  {
  }

  /** One exchange was made; what came of it are the records it brought, or the fallback when it failed. */
  ghost predicate Answered(before: seq<Option<seq<CveRecord>>>, after: seq<Option<seq<CveRecord>>>,
                           records: seq<CveRecord>, fallback: seq<CveRecord>)
  {
    && |after| == |before| + 1 && after[..|before|] == before
    && records == match after[|before|] case Some(brought) => brought case None => fallback
  }

  class NvdClient {
    const interval: nat
    const clock: Clock
    /** The offline fallback, a function of the key alone. */
    const mockLookup: Key -> seq<CveRecord>
    var cache: map<Key, RecordList>
    var lastRequest: Option<nat>
    /** The requests made, what the cache answers for each key, and the list objects it owns. */
    ghost var log: seq<Request>
    ghost var answers: map<Key, seq<CveRecord>>
    ghost var owned: set<RecordList>

    constructor (apiKey: bool, clock: Clock, mockLookup: Key -> seq<CveRecord>)
      ensures Valid() && interval == Interval(apiKey) == (if apiKey then 6 else 60) && this.clock == clock && this.mockLookup == mockLookup
      ensures answers == map[] && log == [] && owned == {}
    {
      this.interval := Interval(apiKey);
      this.clock := clock;
      this.mockLookup := mockLookup;
      cache := map[];
      lastRequest := None;
      log, answers, owned := [], map[], {};
    }

    ghost predicate Valid()
      reads this, clock, owned
    {
      && (forall key :: key in cache <==> key in answers)
      && (forall key :: key in cache ==> cache[key] in owned && cache[key].items == answers[key])
      && Recorded(log, answers)
      && Paced(log, interval)
      && lastRequest.Some? == (log != [])
      && (log != [] ==> log[|log| - 1].finish <= lastRequest.value <= clock.now)
    }

    method Throttle()
      modifies clock
      ensures old(clock.now) <= clock.now && clock.exchanged == old(clock.exchanged)
      ensures lastRequest.Some? ==> lastRequest.value + interval <= clock.now
    {
      if lastRequest.None? {
        return;
      }
      var reading := clock.Monotonic();
      var elapsed := reading - lastRequest.value;
      var remaining := interval - elapsed;
      if remaining > 0 {
        clock.Sleep(remaining);
      }
    }

    /** Throttle, request, fall back on failure, and read the clock again. */
    method Perform(key: Key) returns (found: seq<CveRecord>, reading: nat, ghost request: Request)
      modifies clock
      ensures old(clock.now) <= request.start <= request.finish <= reading <= clock.now
      ensures lastRequest.Some? ==> lastRequest.value + interval <= request.start
      ensures request.key == key && request.records == found
      ensures Answered(old(clock.exchanged), clock.exchanged, found, mockLookup(key))
    {
      Throttle();
      ghost var start := clock.now;
      var answer := clock.Exchange();
      found := if answer.Some? then answer.value else mockLookup(key);
      request := Request(key, start, clock.now, found);
      reading := clock.Monotonic();
    }

    /** The part of `lookup` after a cache miss: request, and keep the answer. */
    method Fetch(key: Key) returns (records: RecordList)
      requires Valid() && key !in cache
      modifies this, clock
      ensures Valid() && fresh(records) && owned == old(owned) + {records}
      ensures answers == old(answers)[key := records.items]
      ensures |log| == |old(log)| + 1 && log[..|old(log)|] == old(log)
      ensures log[|old(log)|].key == key && old(clock.now) <= log[|old(log)|].start
      ensures Answered(old(clock.exchanged), clock.exchanged, records.items, mockLookup(key))
    {
      hide Recorded, Paced, Answered;
      var found, reading, request := Perform(key);
      RecordedNext(log, answers, request);
      PacedNext(log, interval, request);
      lastRequest := Some(reading);
      records := new RecordList(found);
      cache := cache[key := records];
      log, answers, owned := log + [request], answers[key := found], owned + {records};
    }

    /** A known key costs no request and repeats the first answer; a new key costs exactly one request, whose
        answer, empty or fallback included, is kept. The returned list is never one the cache owns. */
    method Lookup(name: string, version: string) returns (result: RecordList)
      requires Valid()
      modifies this, clock
      ensures Valid() && fresh(result) && result !in owned
      ensures fresh(owned - old(owned)) && old(owned) <= owned
      ensures answers == old(answers)[KeyOf(name, version) := result.items]
      ensures KeyOf(name, version) in old(answers) ==> log == old(log) && answers == old(answers)
      ensures KeyOf(name, version) !in old(answers) ==>
                |log| == |old(log)| + 1 && log[..|old(log)|] == old(log) && log[|old(log)|].key == KeyOf(name, version)
      ensures if Asked(old(log), Normal(name), Strip(version))
              then log == old(log) && clock.exchanged == old(clock.exchanged)
              else |log| == |old(log)| + 1 && log[|old(log)|].key == (Normal(name), Strip(version)) &&
                   Answered(old(clock.exchanged), clock.exchanged, result.items, mockLookup((Normal(name), Strip(version))))
    {
      AskedExactly(log, answers, name, version);
      hide Recorded, Paced, KeyOf, Answered, Asked;
      var key := KeyOf(name, version);
      if key in cache {
        result := new RecordList(cache[key].items);
        assert answers == answers[key := result.items];
        return;
      }
      var records := Fetch(key);
      result := new RecordList(records.items);
    }
  }

  /** Whatever a caller does to a list the cache does not own, the client is still valid and answers the same. */
  method Tamper(client: NvdClient, list: RecordList, items: seq<CveRecord>)
    requires client.Valid() && list !in client.owned
    modifies list
    ensures list.items == items
    ensures client.Valid() && client.answers == old(client.answers)
  {
    list.items := items;
  }

  // ---- A whole scan ----

  /** A component's name and version. */
  type Named = (string, string)

  function AnswerFor(c: Named, answers: map<Key, seq<CveRecord>>): seq<CveRecord> {
    var key := KeyOf(c.0, c.1);
    if key in answers then answers[key] else []
  }

  /** The components with a nonempty answer, in order, each with its records. */
  function Matching(components: seq<Named>, answers: map<Key, seq<CveRecord>>): seq<(Named, seq<CveRecord>)> {
    if components == [] then []
    else
      var c := components[|components| - 1];
      Matching(components[..|components| - 1], answers) + if AnswerFor(c, answers) != [] then [(c, AnswerFor(c, answers))] else []
  }

  ghost predicate AllAnswered(components: seq<Named>, answers: map<Key, seq<CveRecord>>) {
    forall c :: c in components ==> KeyOf(c.0, c.1) in answers
  }

  lemma AllAsked(components: seq<Named>, log: seq<Request>, answers: map<Key, seq<CveRecord>>)
    requires AllAnswered(components, answers) && Recorded(log, answers)
    ensures forall c :: c in components ==> Asked(log, Normal(c.0), Strip(c.1))
  {
    hide Normal, Strip, Recorded;
    forall c | c in components ensures Asked(log, Normal(c.0), Strip(c.1)) {
      AskedExactly(log, answers, c.0, c.1);
    }
  }

  ghost predicate Extends(small: map<Key, seq<CveRecord>>, large: map<Key, seq<CveRecord>>) {
    forall key :: key in small ==> key in large && large[key] == small[key]
  }

  lemma {:induction false} MatchingStays(components: seq<Named>, before: map<Key, seq<CveRecord>>, after: map<Key, seq<CveRecord>>)
    requires AllAnswered(components, before) && Extends(before, after)
    ensures Matching(components, after) == Matching(components, before)
  {
    hide KeyOf;
    if components != [] {
      assert components[|components| - 1] in components;
      MatchingStays(components[..|components| - 1], before, after);
    }
  }

  /** A component is matched exactly when the answer for its normal name and stripped version is not empty, and with it. */
  lemma {:induction false} MatchingExactly(components: seq<Named>, answers: map<Key, seq<CveRecord>>, c: Named, records: seq<CveRecord>)
    ensures (c, records) in Matching(components, answers) <==>
            && c in components && records != []
            && (Normal(c.0), Strip(c.1)) in answers && answers[(Normal(c.0), Strip(c.1))] == records
  {
    hide Normal, Strip;
    if components != [] {
      var n := |components| - 1;
      MatchingExactly(components[..n], answers, c, records);
      assert components == components[..n] + [components[n]];
    }
  }

  lemma NothingMatched(answers: map<Key, seq<CveRecord>>)
    ensures AllAnswered([], answers) && Matching([], answers) == []
  {
  }

  lemma ScanStep(components: seq<Named>, i: nat, start: map<Key, seq<CveRecord>>, before: map<Key, seq<CveRecord>>,
                 after: map<Key, seq<CveRecord>>)
    requires i < |components| && AllAnswered(components[..i], before) && Extends(start, before) && Extends(before, after)
    requires KeyOf(components[i].0, components[i].1) in after
    ensures AllAnswered(components[..i + 1], after) && Extends(start, after)
    ensures var cves := after[KeyOf(components[i].0, components[i].1)];
            Matching(components[..i + 1], after) ==
            Matching(components[..i], before) + if cves != [] then [(components[i], cves)] else []
  {
    hide KeyOf;
    MatchingStays(components[..i], before, after);
    assert components[..i + 1][..i] == components[..i];
    assert components[..i + 1] == components[..i] + [components[i]];
  }

  lemma LogKeepsRate(log: seq<Request>, interval: nat)
    requires Paced(log, interval)
    ensures forall apiKey, from :: interval == Interval(apiKey) ==> Starts(log, from) <= Limit(apiKey)
  {
    hide Paced, Starts;
    forall apiKey, from | interval == Interval(apiKey) ensures Starts(log, from) <= Limit(apiKey) {
      RateLimitHolds(log, apiKey, from);
    }
  }

  /** The loop of `match_components` over one client: however names repeat, each new key costs one request and
      each component is matched with the first answer for its key; so the rate limit holds over the whole scan. */
  method MatchComponents(client: NvdClient, components: seq<Named>) returns (matches: seq<(Named, seq<CveRecord>)>)
    requires client.Valid()
    modifies client, client.clock
    ensures client.Valid() && AllAnswered(components, client.answers) && Extends(old(client.answers), client.answers)
    ensures |client.log| - |old(client.log)| == |client.answers| - |old(client.answers)|
    ensures matches == Matching(components, client.answers)
    ensures forall c :: c in components ==> Asked(client.log, Normal(c.0), Strip(c.1))
    ensures forall apiKey, from :: client.interval == Interval(apiKey) ==> Starts(client.log, from) <= Limit(apiKey)
  {
    hide KeyOf, AllAnswered, Matching, Asked, Answered, Starts, Recorded, Paced;
    matches := [];
    ghost var start := client.answers;
    assert AllAnswered(components[..0], start) && Matching(components[..0], start) == [] by { NothingMatched(start); }
    for i := 0 to |components|
      invariant client.Valid() && AllAnswered(components[..i], client.answers) && Extends(start, client.answers)
      invariant |client.log| - |old(client.log)| == |client.answers| - |start|
      invariant matches == Matching(components[..i], client.answers)
    {
      var c := components[i];
      ghost var before := client.answers;
      var cves := client.Lookup(c.0, c.1);
      ScanStep(components, i, start, before, client.answers);
      if cves.items != [] {
        matches := matches + [(c, cves.items)];
      }
    }
    assert components[..|components|] == components;
    AllAsked(components, client.log, client.answers);
    LogKeepsRate(client.log, client.interval);
  }
}
