/** Paging through NVD for each component, with one delay between consecutive requests. */
module Sync {
  import opened Options
  import opened JsonValue
  import opened CveCache
  import opened Records
  import opened Agreement
  import Nvd

  const PAGE_SIZE := 2000
  const MAX_PAGES := 20

  /** Tenths of a second: 30 s / 5 without an API key, 30 s / 50 with one. */
  function DelayFor(apiKey: bool): nat {
    300 / if apiKey then 50 else 5
  }

  datatype Action = Delay(ticks: nat) | Request(component: string, startIndex: nat)

  /** The answer to the n-th request of a run: a decoded page, or nothing when the request fails. */
  type Script = nat -> Option<Json>

  /** The network and the event loop's sleep, recording what is done to them. */
  class Wire {
    const script: Script
    var trace: seq<Action>
    var served: nat

    constructor (script: Script)
      ensures this.script == script && trace == [] && served == 0
    {
      this.script := script;
      trace := [];
      served := 0;
    }

    method Get(component: string, startIndex: nat) returns (answer: Option<Json>)
      modifies this
      ensures answer == script(old(served)) && served == old(served) + 1
      ensures trace == old(trace) + [Request(component, startIndex)]
    {
      trace := trace + [Request(component, startIndex)];
      answer := script(served);
      served := served + 1;
    }

    method Sleep(ticks: nat)
      modifies this
      ensures trace == old(trace) + [Delay(ticks)] && served == old(served)
    {
      trace := trace + [Delay(ticks)];
    }
  }

  /** `start_index` after `page` turns of the paging loop. */
  function StartIndex(page: nat): nat {
    2000 * page
  }

  // ---- What a run does, as functions of the script ----

  /** `totalResults` when it is an `int`, which for Python includes the booleans. */
  function TotalOf(payload: Json): Option<int> {
    if !payload.Object? then None
    else
      match Get(payload.fields, "totalResults", Null)
      case Int(n) => Some(n)
      case Bool(b) => Some(if b then 1 else 0)
      case _ => None
  }

  predicate Good(answer: Option<Json>, component: string) {
    answer.Some? && PageRecords(answer.value, component).Success?
  }

  /** The page at `startIndex` was stored and its total reaches past it. */
  predicate More(answer: Option<Json>, component: string, startIndex: nat) {
    && Good(answer, component)
    && TotalOf(answer.value).Some?
    && startIndex + PAGE_SIZE < TotalOf(answer.value).value
  }

  /** How many requests one component makes from page `page` on. */
  function Pages(script: Script, served: nat, component: string, page: nat): (n: nat)
    requires page < MAX_PAGES
    ensures 1 <= n <= MAX_PAGES - page
    decreases MAX_PAGES - page
  {
    if page + 1 < MAX_PAGES && More(script(served), component, StartIndex(page))
    then 1 + Pages(script, served + 1, component, page + 1)
    else 1
  }

  function PagesTrace(component: string, n: nat, delay: nat): seq<Action> {
    if n == 0 then []
    else
      PagesTrace(component, n - 1, delay)
      + (if n > 1 then [Delay(delay)] else [])
      + [Request(component, StartIndex(n - 1))]
  }

  function PageEvents(script: Script, served: nat, component: string, n: nat): seq<Event> {
    if n == 0 then []
    else PageEvents(script, served, component, n - 1) + [Event(component, script(served + n - 1))]
  }

  function Requests(script: Script, names: seq<string>): nat {
    if names == [] then 0
    else
      var before := Requests(script, names[..|names| - 1]);
      before + Pages(script, before, names[|names| - 1], 0)
  }

  function RunTrace(script: Script, names: seq<string>, delay: nat): seq<Action> {
    if names == [] then []
    else
      var last := names[|names| - 1];
      var before := names[..|names| - 1];
      RunTrace(script, before, delay)
      + (if before != [] then [Delay(delay)] else [])
      + PagesTrace(last, Pages(script, Requests(script, before), last, 0), delay)
  }

  function RunEvents(script: Script, names: seq<string>): seq<Event> {
    if names == [] then []
    else
      var last := names[|names| - 1];
      var before := names[..|names| - 1];
      var served := Requests(script, before);
      RunEvents(script, before) + PageEvents(script, served, last, Pages(script, served, last, 0))
  }

  /** The rows the stored pages of a run write, counted with repetition. */
  function RowsWritten(events: seq<Event>): nat {
    if events == [] then 0
    else
      var last := events[|events| - 1];
      RowsWritten(events[..|events| - 1]) + EventRows(last)
  }

  function EventRows(event: Event): nat {
    if Good(event.page, event.component) then |PageRecords(event.page.value, event.component).value| else 0
  }

  lemma {:induction false} RunConcat(table: Table, a: seq<Event>, b: seq<Event>)
    ensures ApplyRun(table, a + b) == ApplyRun(ApplyRun(table, a), b)
    ensures RowsWritten(a + b) == RowsWritten(a) + RowsWritten(b)
  {
    hide ApplyEvent, EventRows;
    if b == [] {
      assert a + b == a;
    } else {
      assert (a + b)[..|a + b| - 1] == a + b[..|b| - 1];
      RunConcat(table, a, b[..|b| - 1]);
    }
  }

  lemma RunAppend(table: Table, events: seq<Event>, event: Event)
    ensures ApplyRun(table, events + [event]) == ApplyEvent(ApplyRun(table, events), event)
    ensures RowsWritten(events + [event]) == RowsWritten(events) + EventRows(event)
  {
    assert (events + [event])[..|events|] == events;
  }

  // ---- The paging loops ----

  /** Executes the upsert statement for each record and returns how many rows changed. */
  method Upsert(database: EmbeddedCVEDatabase, records: seq<SyncRecord>) returns (changed: nat)
    modifies database`table
    ensures database.table == UpsertAll(old(database.table), records) && changed == |records|
  {
    changed := 0;
    for i := 0 to |records|
      invariant database.table == UpsertAll(old(database.table), records[..i]) && changed == i
    {
      var record := records[i];
      assert records[..i + 1][..i] == records[..i];
      database.table := database.table[(record.cveId, record.cpeId) := RowOf(record)];
      changed := changed + 1;
    }
    assert records[..|records|] == records;
  }

  /** One turn of the paging loop: request a page, write its records, decide whether to go on. */
  method SyncPage(wire: Wire, database: EmbeddedCVEDatabase, component: string, startIndex: nat)
    returns (changed: nat, more: bool)
    modifies wire, database`table
    ensures wire.served == old(wire.served) + 1
    ensures wire.trace == old(wire.trace) + [Request(component, startIndex)]
    ensures var answer := wire.script(old(wire.served));
            && database.table == ApplyEvent(old(database.table), Event(component, answer))
            && changed == EventRows(Event(component, answer))
            && more == More(answer, component, startIndex)
  {
    var answer := wire.Get(component, startIndex);
    if answer.None? {
      return 0, false;
    }
    var records := BuildRecords(answer.value, component);
    if records.Failure? {
      return 0, false;
    }
    changed := Upsert(database, records.value);
    var total := TotalOf(answer.value);
    more := !(total.None? || startIndex + PAGE_SIZE >= total.value);
  }

  /** `n` pages of `component` have been fetched and stored, starting from `table` and `trace`. */
  ghost predicate Paged(script: Script, served: nat, component: string, delay: nat, n: nat,
                        table: Table, table': Table, trace: seq<Action>, trace': seq<Action>, written: nat)
  {
    var events := PageEvents(script, served, component, n);
    && trace' == trace + PagesTrace(component, n, delay)
    && table' == ApplyRun(table, events)
    && written == RowsWritten(events)
  }

  method SyncComponent(wire: Wire, database: EmbeddedCVEDatabase, component: string, delay: nat) returns (written: nat)
    modifies wire, database`table
    ensures var n := Pages(wire.script, old(wire.served), component, 0);
            && wire.served == old(wire.served) + n
            && Paged(wire.script, old(wire.served), component, delay, n,
                     old(database.table), database.table, old(wire.trace), wire.trace, written)
  {
    hide Paged, Pages, ApplyEvent, EventRows, More;
    written := 0;
    var startIndex := 0;
    ghost var script, served := wire.script, wire.served;
    PagedNothing(script, served, component, delay, database.table, wire.trace);
    ghost var table, trace := database.table, wire.trace;
    for page := 0 to MAX_PAGES
      invariant startIndex == StartIndex(page) && wire.served == served + page
      invariant Paged(script, served, component, delay, page, table, database.table, trace, wire.trace, written)
      invariant Pages(script, served, component, 0) ==
                page + if page < MAX_PAGES then Pages(script, served + page, component, page) else 0
    {
      ghost var table1, trace1, written1 := database.table, wire.trace, written;
      if page > 0 {
        wire.Sleep(delay);
      }
      var changed, more := SyncPage(wire, database, component, startIndex);
      assert wire.trace == trace1 + (if page > 0 then [Delay(delay)] else []) + [Request(component, StartIndex(page))];
      PagesUnfold(script, served + page, component, page);
      PagedStep(script, served, component, delay, page, table, table1, trace, trace1, written1);
      written := written + changed;
      startIndex := startIndex + PAGE_SIZE;
      if !more {
        return;
      }
    }
  }

  lemma PagesUnfold(script: Script, served: nat, component: string, page: nat)
    requires page < MAX_PAGES
    ensures Pages(script, served, component, page) ==
            1 + if page + 1 < MAX_PAGES && More(script(served), component, StartIndex(page))
                then Pages(script, served + 1, component, page + 1) else 0
  {
  }

  lemma PagedStep(script: Script, served: nat, component: string, delay: nat, n: nat,
                  table: Table, table': Table, trace: seq<Action>, trace': seq<Action>, written: nat)
    requires Paged(script, served, component, delay, n, table, table', trace, trace', written)
    ensures var event := Event(component, script(served + n));
            Paged(script, served, component, delay, n + 1, table, ApplyEvent(table', event), trace,
                  trace' + (if n > 0 then [Delay(delay)] else []) + [Request(component, StartIndex(n))],
                  written + EventRows(event))
  {
    hide ApplyEvent, EventRows, ApplyRun, RowsWritten, PagesTrace;
    TraceAppend(trace, component, n, delay);
    RunAppend(table, PageEvents(script, served, component, n), Event(component, script(served + n)));
  }

  lemma PagedNothing(script: Script, served: nat, component: string, delay: nat, table: Table, trace: seq<Action>)
    ensures Paged(script, served, component, delay, 0, table, table, trace, trace, 0)
  {
  }

  lemma TraceAppend(trace: seq<Action>, component: string, n: nat, delay: nat)
    ensures trace + PagesTrace(component, n + 1, delay) ==
            trace + PagesTrace(component, n, delay) + (if n > 0 then [Delay(delay)] else []) + [Request(component, StartIndex(n))]
  {
  }

  method SyncDatabase(wire: Wire, database: EmbeddedCVEDatabase, names: seq<string>, apiKey: bool) returns (written: nat)
    requires wire.served == 0 && wire.trace == []
    modifies wire, database
    ensures wire.trace == RunTrace(wire.script, names, DelayFor(apiKey))
    ensures database.initialized && database.userVersion == SCHEMA_VERSION
    ensures database.table ==
            ApplyRun(if old(database.userVersion) == SCHEMA_VERSION then old(database.table) else map[],
                     RunEvents(wire.script, names))
    ensures written == RowsWritten(RunEvents(wire.script, names))
  {
    hide Pages, ApplyEvent, EventRows;
    var delay := DelayFor(apiKey);
    database.InitializeSync();
    written := 0;
    ghost var start, script := database.table, wire.script;
    for index := 0 to |names|
      invariant wire.script == script && wire.served == Requests(script, names[..index])
      invariant wire.trace == RunTrace(script, names[..index], delay)
      invariant database.initialized && database.userVersion == SCHEMA_VERSION
      invariant database.table == ApplyRun(start, RunEvents(script, names[..index]))
      invariant written == RowsWritten(RunEvents(script, names[..index]))
    {
      assert names[..index + 1][..index] == names[..index];
      if index > 0 {
        wire.Sleep(delay);
      }
      ghost var served := wire.served;
      var changed := SyncComponent(wire, database, names[index], delay);
      ghost var events := PageEvents(script, served, names[index], Pages(script, served, names[index], 0));
      RunConcat(start, RunEvents(script, names[..index]), events);
      written := written + changed;
    }
    assert names[..|names|] == names;
  }

  // ---- Pacing over the whole run ----

  /** Requests and delays alternate, starting and ending with a request. */
  predicate Alternates(trace: seq<Action>, delay: nat) {
    && |trace| % 2 == 1
    && forall i | 0 <= i < |trace| :: if i % 2 == 0 then trace[i].Request? else trace[i] == Delay(delay)
  }

  lemma AlternatesJoin(a: seq<Action>, b: seq<Action>, delay: nat)
    requires Alternates(a, delay) && Alternates(b, delay)
    ensures Alternates(a + [Delay(delay)] + b, delay)
  {
    var joined := a + [Delay(delay)] + b;
    forall i | 0 <= i < |joined|
      ensures if i % 2 == 0 then joined[i].Request? else joined[i] == Delay(delay)
    {
      if i > |a| {
        assert joined[i] == b[i - |a| - 1];
      }
    }
  }

  lemma {:induction false} PagesAlternate(component: string, n: nat, delay: nat)
    requires n > 0
    ensures Alternates(PagesTrace(component, n, delay), delay)
  {
    if n > 1 {
      PagesAlternate(component, n - 1, delay);
      AlternatesJoin(PagesTrace(component, n - 1, delay), [Request(component, StartIndex(n - 1))], delay);
    }
  }

  /** Across all components, whatever the answers, every request but the first is preceded by exactly one delay. */
  lemma {:induction false} RunIsPaced(script: Script, names: seq<string>, delay: nat)
    requires names != []
    ensures Alternates(RunTrace(script, names, delay), delay)
  {
    var last := names[|names| - 1];
    var before := names[..|names| - 1];
    var n := Pages(script, Requests(script, before), last, 0);
    PagesAlternate(last, n, delay);
    if before == [] {
      assert RunTrace(script, names, delay) == PagesTrace(last, n, delay);
    } else {
      RunIsPaced(script, before, delay);
      AlternatesJoin(RunTrace(script, before, delay), PagesTrace(last, n, delay), delay);
    }
  }

  // ---- The rate of a run ----

  /** When each action happened: never before the one preceding it, and after a delay at least that much later. */
  predicate Timed(trace: seq<Action>, at: seq<nat>) {
    && |at| == |trace|
    && forall i | 0 < i < |at| :: at[i - 1] + (if trace[i - 1].Delay? then trace[i - 1].ticks else 0) <= at[i]
  }

  /** The requests of a run with their times. */
  function RequestLog(trace: seq<Action>, at: seq<nat>): seq<Nvd.Request>
    requires |at| == |trace|
  {
    if trace == [] then []
    else
      var n := |trace| - 1;
      RequestLog(trace[..n], at[..n]) +
      if trace[n].Request? then [Nvd.Request((trace[n].component, ""), at[n], at[n], [])] else []
  }

  lemma {:induction false} LogIsPaced(trace: seq<Action>, at: seq<nat>, delay: nat)
    requires Alternates(trace, delay) && Timed(trace, at)
    ensures var log := RequestLog(trace, at);
            log != [] && Nvd.Paced(log, delay) && log[|log| - 1].start == log[|log| - 1].finish == at[|at| - 1]
    decreases |trace|
  {
    var n := |trace| - 1;
    assert trace[n].Request?;
    if n > 0 {
      assert trace[n - 1] == Delay(delay);
      assert trace[..n][..n - 1] == trace[..n - 1] && at[..n][..n - 1] == at[..n - 1];
      assert RequestLog(trace[..n], at[..n]) == RequestLog(trace[..n - 1], at[..n - 1]) + [];
      LogIsPaced(trace[..n - 1], at[..n - 1], delay);
      Nvd.PacedNext(RequestLog(trace[..n - 1], at[..n - 1]), delay, Nvd.Request((trace[n].component, ""), at[n], at[n], []));
    } else {
      assert trace[..0] == [] && at[..0] == [];
      assert RequestLog(trace, at) == [Nvd.Request((trace[0].component, ""), at[0], at[0], [])];
    }
  }

  /** A whole run keeps NVD's policy: at most 5 requests, or 50 with a key, in any half-open window of 30 seconds. */
  lemma RunKeepsRateLimit(script: Script, names: seq<string>, apiKey: bool, at: seq<nat>, from: nat)
    requires names != [] && Timed(RunTrace(script, names, DelayFor(apiKey)), at)
    ensures Nvd.Starts(RequestLog(RunTrace(script, names, DelayFor(apiKey)), at), from) <= if apiKey then 50 else 5
  {
    hide RunTrace, Alternates, RequestLog;
    RunIsPaced(script, names, DelayFor(apiKey));
    LogIsPaced(RunTrace(script, names, DelayFor(apiKey)), at, DelayFor(apiKey));
    Nvd.RateLimitHolds(RequestLog(RunTrace(script, names, DelayFor(apiKey)), at), apiKey, from);
  }

  // ---- When paging stops ----

  /** Read off the answer: an object, with a list under `vulnerabilities` if with anything, and this number under
      `totalResults`, where Python takes a truth value for 0 or 1. */
  predicate HasTotal(answer: Option<Json>, total: int) {
    && answer.Some? && answer.value.Object?
    && var page := answer.value.fields;
       && ("vulnerabilities" in page ==> page["vulnerabilities"].List?)
       && "totalResults" in page
       && page["totalResults"] in {Int(total), if total == 1 then Bool(true) else if total == 0 then Bool(false) else Int(total)}
  }

  lemma TotalExactly(answer: Option<Json>, component: string, total: int)
    ensures HasTotal(answer, total) <==> Good(answer, component) && TotalOf(answer.value) == Some(total)
  {
    hide OccurrencesIn, Kept;
  }

  ghost predicate ReachesPast(answer: Option<Json>, x: nat) {
    exists total :: HasTotal(answer, total) && x < total
  }

  /** Turn `page` of a component whose first request is request `served` of the run brings a total past its window. */
  ghost predicate GoesOn(script: Script, served: nat, page: nat) {
    ReachesPast(script(served + page), 2000 * (page + 1))
  }

  lemma GoesOnIsMore(script: Script, served: nat, component: string, page: nat)
    ensures GoesOn(script, served, page) <==> More(script(served + page), component, StartIndex(page))
  {
    hide TotalOf, HasTotal, PageRecords;
    var answer := script(served + page);
    if total :| HasTotal(answer, total) && 2000 * (page + 1) < total {
      TotalExactly(answer, component, total);
    }
    if Good(answer, component) && TotalOf(answer.value).Some? {
      TotalExactly(answer, component, TotalOf(answer.value).value);
    }
  }

  /** Whatever the answers, one component pages on exactly as long as the pages report a total past their window. */
  lemma {:induction false} PagesStop(script: Script, served: nat, component: string, page: nat)
    requires page < 20
    ensures var n := page + Pages(script, served + page, component, page);
            && n <= 20
            && (forall k: nat :: page <= k < n - 1 ==> GoesOn(script, served, k))
            && (n < 20 ==> !GoesOn(script, served, n - 1))
    decreases MAX_PAGES - page
  {
    hide More, GoesOn, Pages, StartIndex;
    PagesUnfold(script, served + page, component, page);
    GoesOnIsMore(script, served, component, page);
    if page + 1 < MAX_PAGES && GoesOn(script, served, page) {
      assert served + page + 1 == served + (page + 1);
      PagesStop(script, served, component, page + 1);
    }
  }

  ghost predicate NoTotal(answer: Option<Json>) {
    forall total :: !HasTotal(answer, total)
  }

  /** A page without a number under `totalResults`, a malformed page or a failed request is a component's last. */
  lemma NoTotalIsLast(script: Script, served: nat, component: string, page: nat)
    requires page < 20 && NoTotal(script(served + page))
    ensures Pages(script, served, component, 0) <= page + 1
  {
    hide HasTotal, Pages;
    PagesStop(script, served, component, 0);
    assert !GoesOn(script, served, page);
  }

  /** How many windows of 2000 a total takes, at least one and at most twenty. */
  function Needed(total: int): nat {
    if total <= 2000 then 1 else if total > 38000 then 20 else (total + 1999) / 2000
  }

  lemma GoesOnByTotal(script: Script, served: nat, page: nat, total: int)
    requires HasTotal(script(served + page), total)
    ensures GoesOn(script, served, page) <==> 2000 * (page + 1) < total
  {
    var answer := script(served + page);
    assert forall other :: HasTotal(answer, other) ==> other == total;
  }

  /** Answers that all report this total are asked for exactly as often as it takes. */
  lemma PagesNeeded(script: Script, served: nat, component: string, total: int)
    requires forall i: nat :: served <= i < served + Needed(total) ==> HasTotal(script(i), total)
    ensures Pages(script, served, component, 0) == Needed(total)
  {
    hide HasTotal, Pages, GoesOn;
    var n := Pages(script, served, component, 0);
    PagesStop(script, served, component, 0);
    var last := if n <= Needed(total) then n - 1 else Needed(total) - 1;
    GoesOnByTotal(script, served, last, total);
  }

  /** Every request the component makes, the first being request `served` of the run, brings a page that is
      stored and reports the same total. */
  ghost predicate Stable(script: Script, served: nat, component: string, total: int) {
    forall i: nat :: served <= i < served + Pages(script, served, component, 0) ==> HasTotal(script(i), total)
  }

  /** Request `k` of a component asks for the window of 2000 results that starts at `2000 * k`. */
  predicate InWindow(x: nat, k: nat) {
    StartIndex(k) <= x < StartIndex(k + 1)
  }

  lemma StablePages(script: Script, served: nat, component: string, total: int)
    requires Stable(script, served, component, total)
    ensures var n := Pages(script, served, component, 0);
            && n == Needed(total)
            && (n < MAX_PAGES ==> total <= StartIndex(n))
            && (forall k: nat :: 0 < k < n ==> StartIndex(k) < total)
  {
    hide HasTotal, GoesOn, Pages;
    var n := Pages(script, served, component, 0);
    PagesStop(script, served, component, 0);
    GoesOnByTotal(script, served, n - 1, total);
    forall k: nat | 0 < k < n ensures StartIndex(k) < total {
      assert GoesOn(script, served, k - 1);
      GoesOnByTotal(script, served, k - 1, total);
    }
    assert n > 1 ==> StartIndex(n - 1) < total;
  }

  /** Windows do not overlap: an index lies in that of request `x / 2000` only. */
  lemma WindowIsUnique(x: nat, k: nat)
    ensures InWindow(x, k) <==> k == x / PAGE_SIZE
  {
  }

  /** The windows fetched cover every result index below the total and below 40000, each index exactly once;
      every window but the first starts inside the total, so no page is superfluous. */
  lemma StableTotalIsCovered(script: Script, served: nat, component: string, total: int)
    requires Stable(script, served, component, total)
    ensures var n := Pages(script, served, component, 0);
            && n == Needed(total)
            && (forall x: nat :: x < total && x < 40000 ==> x / PAGE_SIZE < n && InWindow(x, x / PAGE_SIZE))
            && (forall x: nat, k: nat :: InWindow(x, k) ==> k == x / PAGE_SIZE)
            && (forall k: nat :: 0 < k < n ==> StartIndex(k) < total)
  {
    hide Pages, Stable, Needed;
    StablePages(script, served, component, total);
    var n := Pages(script, served, component, 0);
    forall x: nat | x < total && x < 40000 ensures x / PAGE_SIZE < n && InWindow(x, x / PAGE_SIZE) {
      WindowOf(x, n);
    }
    forall x: nat, k: nat | InWindow(x, k) ensures k == x / PAGE_SIZE {
      WindowIsUnique(x, k);
    }
  }

  lemma WindowOf(x: nat, n: nat)
    requires x < StartIndex(n)
    ensures x / PAGE_SIZE < n && InWindow(x, x / PAGE_SIZE)
  {
  }

  /** The requests of one component, in order, start at 0, 2000, 4000, … */
  lemma {:induction false} RequestStarts(component: string, n: nat, delay: nat, k: nat)
    requires k < n
    ensures |PagesTrace(component, n, delay)| == 2 * n - 1
    ensures PagesTrace(component, n, delay)[2 * k] == Request(component, StartIndex(k))
  {
    if n > 1 {
      RequestStarts(component, n - 1, delay, if k < n - 1 then k else 0);
    }
  }

  // ---- The paging of each component within a run ----

  lemma {:induction false} RunLength(script: Script, names: seq<string>, delay: nat)
    requires names != []
    ensures Requests(script, names) > 0 && |RunTrace(script, names, delay)| == 2 * Requests(script, names) - 1
  {
    hide Pages, PagesTrace;
    var last := names[|names| - 1];
    var before := names[..|names| - 1];
    RequestStarts(last, Pages(script, Requests(script, before), last, 0), delay, 0);
    if before != [] {
      RunLength(script, before, delay);
    }
  }

  lemma {:induction false} EventsAt(script: Script, served: nat, component: string, n: nat, j: nat)
    requires j < n
    ensures |PageEvents(script, served, component, n)| == n
    ensures PageEvents(script, served, component, n)[j] == Event(component, script(served + j))
  {
    if n > 1 {
      EventsAt(script, served, component, n - 1, if j < n - 1 then j else 0);
    }
  }

  lemma {:induction false} RunEventCount(script: Script, names: seq<string>)
    ensures |RunEvents(script, names)| == Requests(script, names)
  {
    hide Pages, PageEvents;
    if names != [] {
      var last := names[|names| - 1];
      var before := names[..|names| - 1];
      RunEventCount(script, before);
      EventsAt(script, Requests(script, before), last, Pages(script, Requests(script, before), last, 0), 0);
    }
  }

  lemma RunUnfold(script: Script, names: seq<string>, delay: nat)
    requires names != []
    ensures var last := names[|names| - 1]; var before := names[..|names| - 1];
            var served := Requests(script, before); var n := Pages(script, served, last, 0);
            && RunTrace(script, names, delay) ==
                 RunTrace(script, before, delay) + (if before != [] then [Delay(delay)] else []) + PagesTrace(last, n, delay)
            && RunEvents(script, names) == RunEvents(script, before) + PageEvents(script, served, last, n)
            && (before == [] ==> Requests(script, before) == 0 && RunTrace(script, before, delay) == [])
  {
    hide Pages, PagesTrace, PageEvents;
  }

  /** The requests for component `k` of a run are, in order, those after the requests for the components before it;
      its `j`-th one starts at index 2000 j. */
  lemma {:induction false} RunRequests(script: Script, names: seq<string>, delay: nat, k: nat, j: nat)
    requires k < |names| && j < Pages(script, Requests(script, names[..k]), names[k], 0)
    ensures var r := 2 * (Requests(script, names[..k]) + j); var trace := RunTrace(script, names, delay);
            r < |trace| && trace[r] == Request(names[k], 2000 * j)
  {
    hide Pages, PagesTrace, PageEvents, RunTrace, RunEvents, Requests;
    var n := |names| - 1;
    var before := names[..n];
    RunUnfold(script, names, delay);
    if k < n {
      assert before[..k] == names[..k];
      RunRequests(script, before, delay, k, j);
    } else {
      RequestStarts(names[n], Pages(script, Requests(script, before), names[n], 0), delay, j);
      if before != [] {
        RunLength(script, before, delay);
      }
    }
  }

  /** And the answer to its `j`-th request is stored for that component. */
  lemma {:induction false} RunAnswers(script: Script, names: seq<string>, k: nat, j: nat)
    requires k < |names| && j < Pages(script, Requests(script, names[..k]), names[k], 0)
    ensures var r := Requests(script, names[..k]) + j; var events := RunEvents(script, names);
            r < |events| && events[r] == Event(names[k], script(r))
  {
    hide Pages, PageEvents, RunTrace, RunEvents, Requests;
    var n := |names| - 1;
    var before := names[..n];
    RunUnfold(script, names, 0);
    RunEventCount(script, before);
    if k < n {
      assert before[..k] == names[..k];
      RunAnswers(script, before, k, j);
    } else {
      EventsAt(script, Requests(script, before), names[n], Pages(script, Requests(script, before), names[n], 0), j);
    }
  }

  /** In a run over any components, whatever happens to the others: if the pages of component `k` are stored and agree
      on a total, each result index below the total and below 40000 is asked for, in the window of one request, and
      no page is superfluous. */
  lemma RunCoversTotal(script: Script, names: seq<string>, delay: nat, k: nat, total: int)
    requires k < |names| && Stable(script, Requests(script, names[..k]), names[k], total)
    ensures var served := Requests(script, names[..k]); var n := Pages(script, served, names[k], 0);
            var trace := RunTrace(script, names, delay);
            && 2 * (served + n) - 1 <= |trace|
            && (forall j: nat :: j < n ==> trace[2 * (served + j)] == Request(names[k], 2000 * j))
            && n == Needed(total)
            && (forall x: nat :: x < total && x < 40000 ==> x / PAGE_SIZE < n && InWindow(x, x / PAGE_SIZE))
            && (forall j: nat :: 0 < j < n ==> StartIndex(j) < total)
  {
    hide Pages, Stable, RunTrace, InWindow, StartIndex, Needed;
    var served := Requests(script, names[..k]);
    var n := Pages(script, served, names[k], 0);
    assert n >= 1;
    StableTotalIsCovered(script, served, names[k], total);
    forall j: nat | j < n
      ensures 2 * (served + j) < |RunTrace(script, names, delay)|
      ensures RunTrace(script, names, delay)[2 * (served + j)] == Request(names[k], 2000 * j)
    {
      RunRequests(script, names, delay, k, j);
    }
    RunRequests(script, names, delay, k, n - 1);
  }
}
