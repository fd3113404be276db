/** The in-flight request counter and the idle wait of the browser tests
    (specs/utils/network-idle.js). Three page event handlers keep the count
    `inflight`; `waitUntilNetworkIdle` polls it until it is at or below a
    threshold, lets a settle window pass, checks again and starts over when
    the count has risen. The sleeps are observation points: while the test
    sleeps, the page delivers a batch of request events, supplied here as
    input, and the count is read when it wakes up. */
module NetworkIdle {
  import opened Options

  type RequestId = nat

  /** The three page events the counter listens to. */
  datatype Kind = Request | RequestFinished | RequestFailed

  datatype Event = Event(kind: Kind, id: RequestId)

  /** How one event moves the count. */
  function Delta(e: Event): int {
    if e.kind == Request then 1 else -1
  }

  /** The count a trace of events adds to the counter, event by event. */
  function Net(trace: seq<Event>): int {
    if trace == [] then 0 else Net(trace[..|trace| - 1]) + Delta(trace[|trace| - 1])
  }

  /** How many events of a kind a trace holds. */
  function CountOf(trace: seq<Event>, kind: Kind): (n: nat)
    ensures n <= |trace|
  {
    if trace == [] then 0
    else (if trace[0].kind == kind then 1 else 0) + CountOf(trace[1..], kind)
  }

  lemma {:induction false} CountOfAppend(a: seq<Event>, b: seq<Event>, kind: Kind)
    ensures CountOf(a + b, kind) == CountOf(a, kind) + CountOf(b, kind)
  {
    if a == [] {
      assert a + b == b;
    } else {
      assert (a + b)[0] == a[0];
      assert (a + b)[1..] == a[1..] + b;
      CountOfAppend(a[1..], b, kind);
    }
  }

  lemma {:induction false} NetAppend(a: seq<Event>, b: seq<Event>)
    ensures Net(a + b) == Net(a) + Net(b)
    decreases |b|
  {
    if b == [] {
      assert a + b == a;
    } else {
      var last := b[|b| - 1];
      assert (a + b)[..|a + b| - 1] == a + b[..|b| - 1];
      assert (a + b)[|a + b| - 1] == last;
      NetAppend(a, b[..|b| - 1]);
    }
  }

  /** After any trace the count is the number of requests minus the number
      of finished and failed ones. */
  lemma {:induction false} NetIsRequestsMinusEnded(trace: seq<Event>)
    ensures Net(trace) == CountOf(trace, Request) - CountOf(trace, RequestFinished) - CountOf(trace, RequestFailed)
    decreases |trace|
  {
    if trace != [] {
      var init := trace[..|trace| - 1];
      var last := trace[|trace| - 1];
      assert trace == init + [last];
      NetIsRequestsMinusEnded(init);
      CountOfAppend(init, [last], Request);
      CountOfAppend(init, [last], RequestFinished);
      CountOfAppend(init, [last], RequestFailed);
    }
  }

  /** The requests that have been dispatched and have not yet ended. */
  function Open(trace: seq<Event>): multiset<RequestId> {
    if trace == [] then multiset{}
    else
      var last := trace[|trace| - 1];
      var before := Open(trace[..|trace| - 1]);
      if last.kind == Request then before + multiset{last.id} else before - multiset{last.id}
  }

  /** The browser's guarantee: every finished or failed event ends a
      request that was dispatched before it and has not ended yet. */
  predicate WellFormed(trace: seq<Event>) {
    trace == [] ||
    (var last := trace[|trace| - 1];
     WellFormed(trace[..|trace| - 1]) && (last.kind == Request || last.id in Open(trace[..|trace| - 1])))
  }

  /** Under that guarantee the count is the number of open requests. */
  lemma {:induction false} NetCountsOpenRequests(trace: seq<Event>)
    requires WellFormed(trace)
    ensures Net(trace) == |Open(trace)|
    decreases |trace|
  {
    if trace != [] {
      NetCountsOpenRequests(trace[..|trace| - 1]);
    }
  }

  /** Every prefix of a well-formed trace is well formed. */
  lemma {:induction false} WellFormedPrefix(trace: seq<Event>, n: nat)
    requires WellFormed(trace) && n <= |trace|
    ensures WellFormed(trace[..n])
    decreases |trace|
  {
    if n < |trace| {
      assert trace[..|trace| - 1][..n] == trace[..n];
      WellFormedPrefix(trace[..|trace| - 1], n);
    } else {
      assert trace[..n] == trace;
    }
  }

  /** So the count never goes below zero at any point of such a trace. */
  lemma NeverNegative(trace: seq<Event>)
    requires WellFormed(trace)
    ensures forall n :: 0 <= n <= |trace| ==> Net(trace[..n]) >= 0
  {
    forall n | 0 <= n <= |trace|
      ensures Net(trace[..n]) >= 0
    {
      WellFormedPrefix(trace, n);
      NetCountsOpenRequests(trace[..n]);
    }
  }

  /** The ids of the requests continued by the counting `request` handler. */
  function ContinuedIds(trace: seq<Event>): seq<RequestId> {
    if trace == [] then []
    else
      var last := trace[|trace| - 1];
      ContinuedIds(trace[..|trace| - 1]) + (if last.kind == Request then [last.id] else [])
  }

  lemma {:induction false} ContinuedIdsAppend(a: seq<Event>, b: seq<Event>)
    ensures ContinuedIds(a + b) == ContinuedIds(a) + ContinuedIds(b)
    decreases |b|
  {
    if b == [] {
      assert a + b == a;
    } else {
      assert (a + b)[..|a + b| - 1] == a + b[..|b| - 1];
      ContinuedIdsAppend(a, b[..|b| - 1]);
    }
  }

  /** `waitUntil === 'networkidle0' ? 0 : 2`; `None` is an omitted option. */
  function MaxIdle(waitUntil: Option<string>): (m: nat)
    ensures m == 0 <==> waitUntil == Some("networkidle0")
    ensures m == 0 || m == 2
  {
    if waitUntil == Some("networkidle0") then 0 else 2
  }

  /** The result of the wait: it resolved, leaving `unusedSleeps` of the
      supplied observation points unused, or it is still waiting when the
      supplied observations run out. */
  datatype WaitOutcome = Resolved(unusedSleeps: nat) | StillWaiting

  /** The wait as a protocol over readings of the counter. `cur` was just
      read by the poll loop's test; `readings` are the counts read after
      each later sleep. Above the threshold, the loop sleeps 100 ms and
      tests again. At or below it, the wait sleeps 500 ms and reads once
      more: at or below the threshold it resolves, otherwise it starts
      over, and its loop test reads that same count again (nothing runs in
      between), so it goes on exactly as one more poll. */
  function Run(maxIdle: int, cur: int, readings: seq<int>): (r: WaitOutcome)
    ensures r.Resolved? ==> r.unusedSleeps < |readings|
    decreases |readings|
  {
    if readings == [] then StillWaiting
    else if cur <= maxIdle && readings[0] <= maxIdle then Resolved(|readings| - 1)
    else Run(maxIdle, readings[0], readings[1..])
  }

  /** The reading before the `i`-th later reading. */
  function Previous(cur: int, readings: seq<int>, i: nat): int
    requires i < |readings|
  {
    if i == 0 then cur else readings[i - 1]
  }

  /** Two consecutive readings, the poll loop's exit and the check after
      the settle window, both at or below the threshold. */
  predicate QuietAt(maxIdle: int, cur: int, readings: seq<int>, i: nat)
    requires i < |readings|
  {
    Previous(cur, readings, i) <= maxIdle && readings[i] <= maxIdle
  }

  /** The wait resolves exactly at the first settle check that follows a
      reading at or below the threshold and is itself at or below it; it
      keeps waiting as long as there is no such pair. A count that drops to
      the threshold and rises again before the settle check therefore never
      ends the wait. */
  lemma {:induction false} RunResolvesAtFirstQuietPair(maxIdle: int, cur: int, readings: seq<int>)
    ensures match Run(maxIdle, cur, readings)
      case StillWaiting =>
        forall i :: 0 <= i < |readings| ==> !QuietAt(maxIdle, cur, readings, i)
      case Resolved(unused) =>
        unused < |readings|
        && QuietAt(maxIdle, cur, readings, |readings| - 1 - unused)
        && forall i :: 0 <= i < |readings| - 1 - unused ==> !QuietAt(maxIdle, cur, readings, i)
    decreases |readings|
  {
    if readings != [] && !(cur <= maxIdle && readings[0] <= maxIdle) {
      var rest := readings[1..];
      RunResolvesAtFirstQuietPair(maxIdle, readings[0], rest);
      forall i | 0 < i < |readings|
        ensures QuietAt(maxIdle, cur, readings, i) == QuietAt(maxIdle, readings[0], rest, i - 1)
      {
      }
    }
  }

  /** When the wait resolves, both the poll loop's exit and the settle
      check read a count at or below the threshold. */
  lemma ResolvedOnlyWhenIdle(maxIdle: int, cur: int, readings: seq<int>)
    requires Run(maxIdle, cur, readings).Resolved?
    ensures var i := |readings| - 1 - Run(maxIdle, cur, readings).unusedSleeps;
      0 <= i < |readings| && readings[i] <= maxIdle && Previous(cur, readings, i) <= maxIdle
  {
    RunResolvesAtFirstQuietPair(maxIdle, cur, readings);
  }

  /** In the strict mode (`networkidle0`), with counts that never go
      negative (as `NeverNegative` shows for well-formed traces), both
      readings that resolve the wait are exactly zero. */
  lemma StrictModeResolvesAtZero(cur: int, readings: seq<int>)
    requires cur >= 0 && forall k :: 0 <= k < |readings| ==> readings[k] >= 0
    requires Run(MaxIdle(Some("networkidle0")), cur, readings).Resolved?
    ensures var i := |readings| - 1 - Run(0, cur, readings).unusedSleeps;
      0 <= i < |readings| && readings[i] == 0 && Previous(cur, readings, i) == 0
  {
    ResolvedOnlyWhenIdle(0, cur, readings);
  }

  /** With a steady count the wait resolves exactly when that count is at
      or below the threshold (and the settle window is observed): the
      lenient mode resolves with 2 requests in flight but not with 3. */
  lemma SteadyCount(maxIdle: int, count: int, n: nat)
    ensures Run(maxIdle, count, seq(n, _ => count)).Resolved? <==> (count <= maxIdle && n >= 1)
  {
    var readings := seq(n, _ => count);
    RunResolvesAtFirstQuietPair(maxIdle, count, readings);
    if count <= maxIdle && n >= 1 {
      assert QuietAt(maxIdle, count, readings, 0);
    }
  }

  /** The counts read after each sleep, when sleep `k` delivers the events
      of `batches[k]` to the counter. */
  function Readings(start: int, batches: seq<seq<Event>>): (rs: seq<int>)
    ensures |rs| == |batches|
    decreases |batches|
  {
    if batches == [] then []
    else
      var next := start + Net(batches[0]);
      [next] + Readings(next, batches[1..])
  }

  /** One sleep of the wait, seen from the batches still to come: the
      reading after batch `i` either completes a quiet pair, or the wait
      goes on from that reading. */
  lemma RunStep(maxIdle: int, cur: int, batches: seq<seq<Event>>, i: nat)
    requires i < |batches|
    ensures var next := cur + Net(batches[i]);
      Run(maxIdle, cur, Readings(cur, batches[i..]))
      == if cur <= maxIdle && next <= maxIdle then Resolved(|batches| - i - 1)
         else Run(maxIdle, next, Readings(next, batches[i + 1..]))
  {
    assert batches[i..][1..] == batches[i + 1..];
  }

  /** The events of a sequence of batches, in delivery order. */
  function Flatten(batches: seq<seq<Event>>): seq<Event> {
    if batches == [] then [] else Flatten(batches[..|batches| - 1]) + batches[|batches| - 1]
  }

  lemma FlattenStep(batches: seq<seq<Event>>, i: nat)
    requires i < |batches|
    ensures Flatten(batches[..i + 1]) == Flatten(batches[..i]) + batches[i]
  {
    assert batches[..i + 1][..i] == batches[..i];
  }

  /** How many batches the wait consumed. */
  function Consumed(outcome: WaitOutcome, supplied: nat): nat {
    match outcome
    case Resolved(unused) => if unused <= supplied then supplied - unused else 0
    case StillWaiting => supplied
  }

  /** The module-level `inflight` with its three handlers. `history` is
      the trace of events delivered so far, `continued` the requests the
      `request` handler has continued. */
  class Tracker {
    var inflight: int
    var continued: seq<RequestId>
    ghost var history: seq<Event>

    ghost predicate Valid()
      reads this
    {
      inflight == Net(history) && continued == ContinuedIds(history)
    }

    /** `let inflight = 0;` */
    constructor ()
      ensures Valid() && inflight == 0 && history == [] && continued == []
    {
      inflight := 0;
      continued := [];
      history := [];
    }

    /** `page.on('request', ...)`: count the request and continue it. */
    method OnRequest(id: RequestId)
      requires Valid()
      modifies this
      ensures Valid()
      ensures inflight == old(inflight) + 1
      ensures continued == old(continued) + [id]
      ensures history == old(history) + [Event(Request, id)]
    {
      inflight := inflight + 1;
      continued := continued + [id];
      history := history + [Event(Request, id)];
      assert history[..|history| - 1] == old(history);
    }

    /** `page.on('requestfinished', ...)` */
    method OnRequestFinished(id: RequestId)
      requires Valid()
      modifies this
      ensures Valid()
      ensures inflight == old(inflight) - 1 && continued == old(continued)
      ensures history == old(history) + [Event(RequestFinished, id)]
    {
      inflight := inflight - 1;
      history := history + [Event(RequestFinished, id)];
      assert history[..|history| - 1] == old(history);
    }

    /** `page.on('requestfailed', ...)` */
    method OnRequestFailed(id: RequestId)
      requires Valid()
      modifies this
      ensures Valid()
      ensures inflight == old(inflight) - 1 && continued == old(continued)
      ensures history == old(history) + [Event(RequestFailed, id)]
    {
      inflight := inflight - 1;
      history := history + [Event(RequestFailed, id)];
      assert history[..|history| - 1] == old(history);
    }

    /** The page emits one event to the handler registered for it. */
    method Deliver(e: Event)
      requires Valid()
      modifies this
      ensures Valid() && history == old(history) + [e]
    {
      match e.kind
      case Request => OnRequest(e.id);
      case RequestFinished => OnRequestFinished(e.id);
      case RequestFailed => OnRequestFailed(e.id);
    }

    /** `await sleep(...)`: meanwhile the page delivers `batch`. */
    method Sleep(batch: seq<Event>)
      requires Valid()
      modifies this
      ensures Valid() && history == old(history) + batch
      ensures inflight == old(inflight) + Net(batch)
    {
      var i := 0;
      while i < |batch|
        invariant 0 <= i <= |batch|
        invariant Valid() && history == old(history) + batch[..i]
      {
        Deliver(batch[i]);
        assert batch[..i + 1] == batch[..i] + [batch[i]];
        i := i + 1;
      }
      assert batch[..i] == batch;
      NetAppend(old(history), batch);
    }

    /** `while (inflight > maxIdle) { await sleep(100); }`: polls through
        the batches until the count is at or below `maxIdle` or the batches
        run out. */
    method Poll(maxIdle: int, batches: seq<seq<Event>>) returns (used: nat)
      requires Valid()
      modifies this
      ensures Valid() && used <= |batches|
      ensures inflight > maxIdle ==> used == |batches|
      ensures Run(maxIdle, old(inflight), Readings(old(inflight), batches))
           == Run(maxIdle, inflight, Readings(inflight, batches[used..]))
      ensures history == old(history) + Flatten(batches[..used])
    {
      used := 0;
      assert batches[..0] == [];
      while inflight > maxIdle && used < |batches|
        invariant 0 <= used <= |batches|
        invariant Valid()
        invariant Run(maxIdle, old(inflight), Readings(old(inflight), batches))
               == Run(maxIdle, inflight, Readings(inflight, batches[used..]))
        invariant history == old(history) + Flatten(batches[..used])
        decreases |batches| - used
      {
        PollOnce(maxIdle, batches, used, old(inflight), old(history));
        used := used + 1;
      }
    }

    /** One pass of the poll loop, above the threshold: `sleep(100)`
        delivers batch `used`, and the wait goes on from the new count. */
    method PollOnce(maxIdle: int, batches: seq<seq<Event>>, used: nat, ghost start: int, ghost started: seq<Event>)
      requires Valid() && used < |batches| && inflight > maxIdle
      requires Run(maxIdle, start, Readings(start, batches))
            == Run(maxIdle, inflight, Readings(inflight, batches[used..]))
      requires history == started + Flatten(batches[..used])
      modifies this
      ensures Valid()
      ensures Run(maxIdle, start, Readings(start, batches))
           == Run(maxIdle, inflight, Readings(inflight, batches[used + 1..]))
      ensures history == started + Flatten(batches[..used + 1])
    {
      RunStep(maxIdle, inflight, batches, used);
      SleepThrough(batches, used);
      FlattenStep(batches, used);
    }

    /** `waitUntilNetworkIdle({ waitUntil })`: sleep `k` delivers
        `batches[k]`; when the batches run out before the wait resolves,
        the model reports that it is still waiting. */
    method WaitUntilNetworkIdle(waitUntil: Option<string>, batches: seq<seq<Event>>) returns (outcome: WaitOutcome)
      requires Valid()
      modifies this
      ensures Valid()
      ensures outcome == Run(MaxIdle(waitUntil), old(inflight), Readings(old(inflight), batches))
      ensures outcome.Resolved? ==> inflight <= MaxIdle(waitUntil)
      ensures history == old(history) + Flatten(batches[..Consumed(outcome, |batches|)])
      decreases |batches|
    {
      var maxIdle := MaxIdle(waitUntil);
      var i := Poll(maxIdle, batches);
      if i == |batches| {
        assert batches[..|batches|] == batches;
        return StillWaiting;
      }
      Settle(maxIdle, batches, i, old(inflight), old(history));
      i := i + 1;
      if inflight > maxIdle {
        ghost var settled := history;
        outcome := WaitUntilNetworkIdle(waitUntil, batches[i..]);
        ghost var n := Consumed(outcome, |batches| - i);
        assert Consumed(outcome, |batches|) == i + n;
        HistoryAcrossRestart(old(history), settled, history, batches, i, n);
        assert history == old(history) + Flatten(batches[..i + n]);
      } else {
        outcome := Resolved(|batches| - i);
        assert Consumed(outcome, |batches|) == i;
        assert history == old(history) + Flatten(batches[..i]);
      }
    }

    /** `await sleep(500)` after the poll loop left at or below the
        threshold: the reading after batch `i` resolves the wait when it is
        at or below the threshold too; otherwise the wait goes on from it. */
    method Settle(maxIdle: int, batches: seq<seq<Event>>, i: nat, ghost start: int, ghost started: seq<Event>)
      requires Valid() && i < |batches| && inflight <= maxIdle
      requires Run(maxIdle, start, Readings(start, batches))
            == Run(maxIdle, inflight, Readings(inflight, batches[i..]))
      requires history == started + Flatten(batches[..i])
      modifies this
      ensures Valid()
      ensures inflight <= maxIdle ==> Run(maxIdle, start, Readings(start, batches)) == Resolved(|batches| - i - 1)
      ensures inflight > maxIdle ==> Run(maxIdle, start, Readings(start, batches))
                                     == Run(maxIdle, inflight, Readings(inflight, batches[i + 1..]))
      ensures history == started + Flatten(batches[..i + 1])
    {
      RunStep(maxIdle, inflight, batches, i);
      SleepThrough(batches, i);
      FlattenStep(batches, i);
    }

    /** One sleep of the wait: deliver batch `i`, the next reading. */
    method SleepThrough(batches: seq<seq<Event>>, i: nat)
      requires Valid() && i < |batches|
      modifies this
      ensures Valid()
      ensures inflight == old(inflight) + Net(batches[i])
      ensures history == old(history) + batches[i]
    {
      Sleep(batches[i]);
    }
  }

  /** The events delivered before a restart and those delivered by the
      restarted wait make up the first `i + n` batches. */
  lemma HistoryAcrossRestart(start: seq<Event>, settled: seq<Event>, after: seq<Event>,
                             batches: seq<seq<Event>>, i: nat, n: nat)
    requires i + n <= |batches|
    requires settled == start + Flatten(batches[..i])
    requires after == settled + Flatten(batches[i..][..n])
    ensures after == start + Flatten(batches[..i + n])
  {
    FlattenSplit(batches, i, n);
  }

  /** Flattening the first `i + n` batches is flattening the first `i`,
      then the first `n` of the rest. */
  lemma {:induction false} FlattenSplit(batches: seq<seq<Event>>, i: nat, n: nat)
    requires i + n <= |batches|
    ensures Flatten(batches[..i + n]) == Flatten(batches[..i]) + Flatten(batches[i..][..n])
    decreases n
  {
    if n == 0 {
      assert batches[i..][..0] == [];
      assert batches[..i + 0] == batches[..i];
    } else {
      FlattenSplit(batches, i, n - 1);
      assert batches[..i + n][..i + n - 1] == batches[..i + n - 1];
      assert batches[i..][..n][..n - 1] == batches[i..][..n - 1];
      assert batches[..i + n][i + n - 1] == batches[i..][..n][n - 1];
    }
  }
}
