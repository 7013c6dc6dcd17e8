/** The keeper's position watcher: each tick compares the chain with the last known records
    and digests, and asks for the positions that changed to be recomputed. */
module PositionWatcher {
  import opened FixedPoint
  import opened DedupQueue

  /** The fields of an on-chain position the watcher compares. */
  datatype Record = Record(
    position: string,
    protocolObligation: string,
    collateralVault: string,
    injectedAmount: nat,
    injected: bool)

  datatype ComputeJob =
    | FullRescan(reason: string)
    | PositionChanged(position: string, reason: string)
    | PriceChanged(reserve: string, previousPriceSf: nat, nextPriceSf: nat)

  type Request = Item<ComputeJob>

  /** What one tick reads: the repository, the chain, and the digests that could be fetched. */
  datatype Tick = Tick(previous: seq<Record>, onChain: seq<Record>, fetched: map<string, string>)

  function ChangedRequest(position: string, reason: string): Request {
    Item("position_changed:" + position, PositionChanged(position, reason))
  }

  function RemovedRequest(position: string): Request {
    Item("position_removed:" + position, PositionChanged(position, "position_removed"))
  }

  /** Looking a position up in a list turned into a map: the last entry wins. */
  function Lookup(records: seq<Record>, position: string): (r: Option<Record>)
    ensures r.Some? ==> r.value in records && r.value.position == position
    ensures r.None? <==> forall x | x in records :: x.position != position
  {
    if |records| == 0 then None
    else
      var rest, last := records[..|records| - 1], records[|records| - 1];
      assert records == rest + [last];
      if last.position == position then Some(last) else Lookup(rest, position)
  }

  /** Recorded digests, and the enqueue calls made so far in this tick. */
  datatype Effect = Effect(digests: map<string, string>, requests: seq<Request>)

  function Removed(t: Tick): seq<string> {
    RemovedAmong(t.previous, t.onChain)
  }

  function RemovedAmong(previous: seq<Record>, onChain: seq<Record>): seq<string> {
    if |previous| == 0 then []
    else
      var last := previous[|previous| - 1].position;
      RemovedAmong(previous[..|previous| - 1], onChain)
      + (if Lookup(onChain, last).None? then [last] else [])
  }

  function Forget(e: Effect, position: string): Effect {
    Effect(e.digests - {position}, e.requests + [RemovedRequest(position)])
  }

  function ForgetAll(digests: map<string, string>, removed: seq<string>): Effect {
    if |removed| == 0 then Effect(digests, [])
    else Forget(ForgetAll(digests, removed[..|removed| - 1]), removed[|removed| - 1])
  }

  predicate SameMetadata(a: Record, b: Record) {
    && a.injected == b.injected && a.injectedAmount == b.injectedAmount
    && a.collateralVault == b.collateralVault && a.protocolObligation == b.protocolObligation
  }

  /** One on-chain position: discovered, metadata changed, or digest compared. */
  function Visit(e: Effect, t: Tick, p: Record): Effect {
    match Lookup(t.previous, p.position)
    case None =>
      Effect(if p.protocolObligation in t.fetched
             then e.digests[p.position := t.fetched[p.protocolObligation]] else e.digests,
             e.requests + [ChangedRequest(p.position, "position_discovered")])
    case Some(prior) =>
      if !SameMetadata(prior, p) then
        e.(requests := e.requests + [ChangedRequest(p.position, "position_metadata_changed")])
      else if p.protocolObligation !in t.fetched then e
      else
        var digest := t.fetched[p.protocolObligation];
        var digests := e.digests[p.position := digest];
        if p.position !in e.digests || e.digests[p.position] == digest then e.(digests := digests)
        else Effect(digests, e.requests
                             + [ChangedRequest(p.position, "obligation_user_state_changed")])
  }

  function VisitAll(e: Effect, t: Tick, positions: seq<Record>): Effect {
    if |positions| == 0 then e
    else Visit(VisitAll(e, t, positions[..|positions| - 1]), t, positions[|positions| - 1])
  }

  function TickEffect(digests: map<string, string>, t: Tick): Effect {
    VisitAll(ForgetAll(digests, Removed(t)), t, t.onChain)
  }

  class Watcher {
    const queue: Queue<ComputeJob>
    var digestByPosition: map<string, string>

    constructor (q: Queue<ComputeJob>)
      ensures queue == q && digestByPosition == map[]
    {
      queue := q;
      digestByPosition := map[];
    }

    method Request(r: Request, ghost before: State<ComputeJob>, ghost made: seq<Request>)
      requires queue.Contents() == EnqueueAll(before, made)
      modifies queue
      ensures queue.Contents() == EnqueueAll(before, made + [r])
    {
      EnqueueOneMore(before, made, r);
      var _ := queue.Push(r);
    }

    method HandleTick(t: Tick)
      modifies this, queue
      ensures digestByPosition == TickEffect(old(digestByPosition), t).digests
      ensures queue.Contents()
              == EnqueueAll(old(queue.Contents()), TickEffect(old(digestByPosition), t).requests)
    {
      ghost var q0, d0 := queue.Contents(), digestByPosition;
      ForgetPositions(Removed(t));
      VisitPositions(t, q0, ForgetAll(d0, Removed(t)));
    }

    method ForgetPositions(removed: seq<string>)
      modifies this, queue
      ensures digestByPosition == ForgetAll(old(digestByPosition), removed).digests
      ensures queue.Contents()
              == EnqueueAll(old(queue.Contents()), ForgetAll(old(digestByPosition), removed).requests)
    {
      ghost var q0, d0 := queue.Contents(), digestByPosition;
      ghost var e := Effect(d0, []);
      for i := 0 to |removed|
        invariant e == ForgetAll(d0, removed[..i])
        invariant digestByPosition == e.digests && queue.Contents() == EnqueueAll(q0, e.requests)
      {
        assert removed[..i + 1][..i] == removed[..i];
        digestByPosition := digestByPosition - {removed[i]};
        Request(RemovedRequest(removed[i]), q0, e.requests);
        e := Forget(e, removed[i]);
      }
      assert removed[..|removed|] == removed;
    }

    method VisitPositions(t: Tick, ghost before: State<ComputeJob>, ghost start: Effect)
      requires digestByPosition == start.digests
      requires queue.Contents() == EnqueueAll(before, start.requests)
      modifies this, queue
      ensures digestByPosition == VisitAll(start, t, t.onChain).digests
      ensures queue.Contents() == EnqueueAll(before, VisitAll(start, t, t.onChain).requests)
    {
      ghost var e := start;
      for i := 0 to |t.onChain|
        invariant e == VisitAll(start, t, t.onChain[..i])
        invariant digestByPosition == e.digests && queue.Contents() == EnqueueAll(before, e.requests)
      {
        assert t.onChain[..i + 1][..i] == t.onChain[..i];
        VisitPosition(t, t.onChain[i], before, e);
        e := Visit(e, t, t.onChain[i]);
      }
      assert t.onChain[..|t.onChain|] == t.onChain;
    }

    method VisitPosition(t: Tick, p: Record, ghost before: State<ComputeJob>, ghost e: Effect)
      requires digestByPosition == e.digests && queue.Contents() == EnqueueAll(before, e.requests)
      modifies this, queue
      ensures digestByPosition == Visit(e, t, p).digests
      ensures queue.Contents() == EnqueueAll(before, Visit(e, t, p).requests)
    {
      var prior := Lookup(t.previous, p.position);
      if prior.None? {
        if p.protocolObligation in t.fetched {
          digestByPosition := digestByPosition[p.position := t.fetched[p.protocolObligation]];
        }
        Request(ChangedRequest(p.position, "position_discovered"), before, e.requests);
        return;
      }
      if prior.value.injected != p.injected || prior.value.injectedAmount != p.injectedAmount
         || prior.value.collateralVault != p.collateralVault
         || prior.value.protocolObligation != p.protocolObligation {
        Request(ChangedRequest(p.position, "position_metadata_changed"), before, e.requests);
        return;
      }
      if p.protocolObligation !in t.fetched { return; }
      var nextDigest := t.fetched[p.protocolObligation];
      var known := p.position in digestByPosition;
      var changed := known && digestByPosition[p.position] != nextDigest;
      digestByPosition := digestByPosition[p.position := nextDigest];
      if changed {
        Request(ChangedRequest(p.position, "obligation_user_state_changed"), before, e.requests);
      }
    }
  }

  // ----- no recorded change goes unreported -----

  ghost predicate Names(requests: seq<Request>, position: string) {
    exists i :: 0 <= i < |requests| && Concerns(requests[i], position)
  }

  predicate Concerns(r: Request, position: string) {
    && r.payload.PositionChanged? && r.payload.position == position
    && (r.key == "position_changed:" + position || r.key == "position_removed:" + position)
  }

  /** The digest recorded for a position is the same in both maps. */
  predicate SameDigest(a: map<string, string>, b: map<string, string>, position: string) {
    position in a && position in b && a[position] == b[position]
  }

  lemma NamesGrow(requests: seq<Request>, more: seq<Request>, position: string)
    ensures Names(requests, position) ==> Names(requests + more, position)
    ensures Names(more, position) ==> Names(requests + more, position)
  {
    if Names(requests, position) {
      var i :| 0 <= i < |requests| && Concerns(requests[i], position);
      assert (requests + more)[i] == requests[i];
    }
    if Names(more, position) {
      var i :| 0 <= i < |more| && Concerns(more[i], position);
      assert (requests + more)[|requests| + i] == more[i];
    }
  }

  lemma {:induction false} ForgetAllReports(
    digests: map<string, string>, removed: seq<string>, position: string)
    requires position in digests
    ensures var e := ForgetAll(digests, removed);
            SameDigest(digests, e.digests, position) || Names(e.requests, position)
  {
    if |removed| > 0 {
      var last := removed[|removed| - 1];
      var e := ForgetAll(digests, removed[..|removed| - 1]);
      ForgetAllReports(digests, removed[..|removed| - 1], position);
      NamesGrow(e.requests, [RemovedRequest(last)], position);
      if last == position {
        assert Concerns([RemovedRequest(last)][0], position);
      }
    }
  }

  /** A visit changes a recorded digest without a request only where none was recorded. */
  lemma VisitReports(e: Effect, t: Tick, p: Record, position: string)
    ensures Names(e.requests, position) ==> Names(Visit(e, t, p).requests, position)
    ensures position in e.digests ==>
              SameDigest(e.digests, Visit(e, t, p).digests, position)
              || Names(Visit(e, t, p).requests, position)
  {
    var next := Visit(e, t, p);
    if |next.requests| > |e.requests| {
      var r := next.requests[|e.requests|];
      assert next.requests == e.requests + [r];
      NamesGrow(e.requests, [r], position);
      if p.position == position {
        assert Concerns([r][0], position);
      }
    }
  }

  lemma {:induction false} VisitAllReports(
    e: Effect, t: Tick, positions: seq<Record>, position: string)
    ensures Names(e.requests, position) ==> Names(VisitAll(e, t, positions).requests, position)
    ensures position in e.digests ==>
              SameDigest(e.digests, VisitAll(e, t, positions).digests, position)
              || Names(VisitAll(e, t, positions).requests, position)
  {
    if |positions| > 0 {
      var n := |positions| - 1;
      VisitAllReports(e, t, positions[..n], position);
      VisitReports(VisitAll(e, t, positions[..n]), t, positions[n], position);
    }
  }

  /** One tick: a recorded digest survives unchanged, or a request names its position. */
  lemma TickReports(digests: map<string, string>, t: Tick, position: string)
    requires position in digests
    ensures SameDigest(digests, TickEffect(digests, t).digests, position)
            || Names(TickEffect(digests, t).requests, position)
  {
    ForgetAllReports(digests, Removed(t), position);
    VisitAllReports(ForgetAll(digests, Removed(t)), t, t.onChain, position);
  }

  /** The exact silent case: a visit records a first digest for a position the repository
      already knows, because the fetch failed when the position was discovered. */
  lemma SilentFirstDigest(e: Effect, t: Tick, p: Record)
    ensures && Visit(e, t, p).requests == e.requests
            && Visit(e, t, p).digests != e.digests
            <==> && Lookup(t.previous, p.position).Some?
                 && SameMetadata(Lookup(t.previous, p.position).value, p)
                 && p.protocolObligation in t.fetched
                 && p.position !in e.digests
  {
    if p.position !in e.digests && p.protocolObligation in t.fetched {
      assert p.position in e.digests[p.position := t.fetched[p.protocolObligation]];
    }
    if p.position in e.digests {
      assert e.digests[p.position := e.digests[p.position]] == e.digests;
    }
  }

  // ----- ticks and consumers together -----

  datatype Event = TickEvent(tick: Tick) | ConsumeEvent

  function DigestsAfter(start: map<string, string>, events: seq<Event>): map<string, string> {
    if |events| == 0 then start
    else
      var before := DigestsAfter(start, events[..|events| - 1]);
      match events[|events| - 1]
      case TickEvent(t) => TickEffect(before, t).digests
      case ConsumeEvent => before
  }

  /** The queue operations of one event. */
  function EventOps(digests: map<string, string>, event: Event): seq<Op<ComputeJob>> {
    match event
    case TickEvent(t) => Enqueues(TickEffect(digests, t).requests)
    case ConsumeEvent => [DequeueOp]
  }

  function QueueOps(start: map<string, string>, events: seq<Event>): seq<Op<ComputeJob>> {
    if |events| == 0 then []
    else
      var earlier := events[..|events| - 1];
      QueueOps(start, earlier) + EventOps(DigestsAfter(start, earlier), events[|events| - 1])
  }

  lemma {:induction false} OpsExtend(start: map<string, string>, events: seq<Event>, i: nat)
    requires i <= |events|
    ensures QueueOps(start, events[..i]) <= QueueOps(start, events)
  {
    if i == |events| {
      assert events[..i] == events;
    } else {
      var earlier := events[..|events| - 1];
      assert events[..i] == earlier[..i];
      OpsExtend(start, earlier, i);
    }
  }

  /** Between two points where the recorded digest differs, some tick named the position. */
  lemma {:induction false} ChangeIsReported(
    start: map<string, string>, events: seq<Event>, i: nat, j: nat, position: string)
    returns (t: nat)
    requires i <= j <= |events|
    requires position in DigestsAfter(start, events[..i])
    requires !SameDigest(DigestsAfter(start, events[..i]), DigestsAfter(start, events[..j]), position)
    ensures i <= t < j && events[t].TickEvent?
    ensures Names(TickEffect(DigestsAfter(start, events[..t]), events[t].tick).requests, position)
  {
    assert i < j;
    var middle := DigestsAfter(start, events[..j - 1]);
    assert events[..j][..j - 1] == events[..j - 1];
    if SameDigest(DigestsAfter(start, events[..i]), middle, position) {
      t := j - 1;
      TickReports(middle, events[t].tick, position);
    } else {
      t := ChangeIsReported(start, events, i, j - 1, position);
    }
  }

  ghost predicate AnsweredSince(
    ops: seq<Op<ComputeJob>>, all: seq<Op<ComputeJob>>, position: string)
  {
    ServedSince(ops, all, "position_changed:" + position)
    || ServedSince(ops, all, "position_removed:" + position)
  }

  lemma RequestAnswered(start: map<string, string>, events: seq<Event>, t: nat, n: nat)
    returns (ops: seq<Op<ComputeJob>>)
    requires t < |events| && events[t].TickEvent?
    requires n < |TickEffect(DigestsAfter(start, events[..t]), events[t].tick).requests|
    ensures QueueOps(start, events[..t]) <= ops <= QueueOps(start, events[..t + 1])
    ensures var r := TickEffect(DigestsAfter(start, events[..t]), events[t].tick).requests[n];
            ServedSince(ops, QueueOps(start, events), r.key)
  {
    var requests := TickEffect(DigestsAfter(start, events[..t]), events[t].tick).requests;
    ops := QueueOps(start, events[..t]) + Enqueues(requests[..n]);
    assert events[..t + 1][..t] == events[..t];
    OpsExtend(start, events, t + 1);
    ServedInside(QueueOps(start, events[..t]), requests, n, QueueOps(start, events));
  }

  /** Over any run of ticks and consumers, if a recorded digest changes or disappears between
      two moments, then a job for that position, not yet delivered at some moment between
      them, is pending or delivered at the end, even where the queue refused the request. */
  lemma DigestChangesAreNeverLost(
    start: map<string, string>, events: seq<Event>, i: nat, j: nat, position: string)
    requires i <= j <= |events|
    requires position in DigestsAfter(start, events[..i])
    requires !SameDigest(DigestsAfter(start, events[..i]), DigestsAfter(start, events[..j]), position)
    ensures exists ops: seq<Op<ComputeJob>> ::
              && QueueOps(start, events[..i]) <= ops <= QueueOps(start, events[..j])
              && AnsweredSince(ops, QueueOps(start, events), position)
  {
    var t := ChangeIsReported(start, events, i, j, position);
    var requests := TickEffect(DigestsAfter(start, events[..t]), events[t].tick).requests;
    var n :| 0 <= n < |requests| && Concerns(requests[n], position);
    var ops := RequestAnswered(start, events, t, n);
    Prefixes(start, events, i, t, j);
    assert AnsweredSince(ops, QueueOps(start, events), position);
  }

  lemma Prefixes(start: map<string, string>, events: seq<Event>, i: nat, t: nat, j: nat)
    requires i <= t < j <= |events|
    ensures QueueOps(start, events[..i]) <= QueueOps(start, events[..t])
    ensures QueueOps(start, events[..t + 1]) <= QueueOps(start, events[..j])
  {
    assert events[..t][..i] == events[..i];
    OpsExtend(start, events[..t], i);
    assert events[..j][..t + 1] == events[..t + 1];
    OpsExtend(start, events[..j], t + 1);
  }
}
