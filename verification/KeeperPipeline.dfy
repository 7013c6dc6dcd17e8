/** The keeper's two queues together: from a change the watcher records, through a worker, to an
    action waiting for an executor. */
module KeeperPipeline {
  import opened FixedPoint
  import opened DedupQueue
  import opened LtvWorker
  import opened WorkerJobs
  import Watch = PositionWatcher

  /** A watcher's tick; a worker's dequeue call; the processing of the job which that call was
      given, with what the worker reads meanwhile; an executor's dequeue call; and an executor
      putting an action back. */
  datatype Event =
    | Tick(tick: Watch.Tick)
    | Take
    | Work(call: nat, readings: seq<Reading>)
    | Execute
    | Retry(kind: Kind, position: string)

  /** The watcher's and the workers' part of the events. */
  function Watched(events: seq<Event>): seq<Watch.Event> {
    if |events| == 0 then []
    else
      var earlier := Watched(events[..|events| - 1]);
      match events[|events| - 1]
      case Tick(tick) => earlier + [Watch.TickEvent(tick)]
      case Take => earlier + [Watch.ConsumeEvent]
      case _ => earlier
  }

  function JobOps(start: map<string, string>, events: seq<Event>): seq<Op<Watch.ComputeJob>> {
    Watch.QueueOps(start, Watched(events))
  }

  function DigestsAt(start: map<string, string>, events: seq<Event>): map<string, string> {
    Watch.DigestsAfter(start, Watched(events))
  }

  function ActionOpsOf(event: Event): seq<Op<ExecuteJob>> {
    match event
    case Work(_, readings) => Enqueues(Requests(readings[..Completed(readings)]))
    case Execute => [DequeueOp]
    case Retry(kind, position) => [EnqueueOp(ActionItem(kind, position))]
    case _ => []
  }

  function ActionOps(events: seq<Event>): seq<Op<ExecuteJob>> {
    if |events| == 0 then []
    else ActionOps(events[..|events| - 1]) + ActionOpsOf(events[|events| - 1])
  }

  /** A worker processes only a job it was given, and for a changed position reads that
      position. */
  ghost predicate Works(start: map<string, string>, events: seq<Event>) {
    forall e | 0 <= e < |events| && events[e].Work? ::
      GivenTo(JobOps(start, events[..e]), events[e].call, events[e].readings)
  }

  ghost predicate GivenTo(ops: seq<Op<Watch.ComputeJob>>, call: nat, readings: seq<Reading>) {
    && call in Run(ops).delivered
    && var job := Run(ops).delivered[call].payload;
       job.PositionChanged? ==> |readings| == 1 && readings[0].position == job.position
  }

  // ----- projections -----

  lemma {:induction false} WatchedPrefix(events: seq<Event>, i: nat)
    requires i <= |events|
    ensures Watched(events[..i]) <= Watched(events)
  {
    if i == |events| {
      assert events[..i] == events;
    } else {
      assert events[..|events| - 1][..i] == events[..i];
      WatchedPrefix(events[..|events| - 1], i);
    }
  }

  lemma JobOpsPrefix(start: map<string, string>, events: seq<Event>, i: nat)
    requires i <= |events|
    ensures JobOps(start, events[..i]) <= JobOps(start, events)
  {
    WatchedPrefix(events, i);
    var n := |Watched(events[..i])|;
    assert Watched(events)[..n] == Watched(events[..i]);
    Watch.OpsExtend(start, Watched(events), n);
  }

  lemma {:induction false} ActionSplit(events: seq<Event>, e: nat) returns (more: seq<Op<ExecuteJob>>)
    requires e < |events|
    ensures ActionOps(events) == ActionOps(events[..e]) + ActionOpsOf(events[e]) + more
    ensures ActionHistory(more)
  {
    var last := |events| - 1;
    if e == last {
      more := [];
    } else {
      var rest := ActionSplit(events[..last], e);
      assert events[..last][..e] == events[..e] && events[..last][e] == events[e];
      OneEventActs(events[last]);
      more := rest + ActionOpsOf(events[last]);
      Joined(ActionOps(events[..e]), ActionOpsOf(events[e]), rest, ActionOpsOf(events[last]));
    }
  }

  lemma Joined(
    a: seq<Op<ExecuteJob>>, b: seq<Op<ExecuteJob>>, c: seq<Op<ExecuteJob>>, d: seq<Op<ExecuteJob>>)
    requires ActionHistory(c) && ActionHistory(d)
    ensures a + b + c + d == a + b + (c + d)
    ensures ActionHistory(c + d)
  {
  }

  lemma OneEventActs(event: Event)
    ensures ActionHistory(ActionOpsOf(event))
  {
    if event.Work? {
      JobKeepsActions(event.readings[..Completed(event.readings)]);
    }
  }

  lemma {:induction false} AllActs(events: seq<Event>)
    ensures ActionHistory(ActionOps(events))
  {
    if |events| > 0 {
      AllActs(events[..|events| - 1]);
      OneEventActs(events[|events| - 1]);
    }
  }

  // ----- what the compute queue holds -----

  /** The watcher's jobs name their position in their key. */
  ghost predicate Names(item: Item<Watch.ComputeJob>) {
    && item.payload.PositionChanged?
    && (item.key == "position_changed:" + item.payload.position
        || item.key == "position_removed:" + item.payload.position)
  }

  ghost predicate NamingOps(ops: seq<Op<Watch.ComputeJob>>) {
    forall i | 0 <= i < |ops| && ops[i].EnqueueOp? :: Names(ops[i].item)
  }

  lemma {:induction false} RemovalsName(digests: map<string, string>, removed: seq<string>)
    ensures forall i | 0 <= i < |Watch.ForgetAll(digests, removed).requests| ::
              Names(Watch.ForgetAll(digests, removed).requests[i])
  {
    if |removed| > 0 {
      RemovalsName(digests, removed[..|removed| - 1]);
    }
  }

  lemma {:induction false} VisitsName(
    e: Watch.Effect, t: Watch.Tick, positions: seq<Watch.Record>)
    requires forall i | 0 <= i < |e.requests| :: Names(e.requests[i])
    ensures forall i | 0 <= i < |Watch.VisitAll(e, t, positions).requests| ::
              Names(Watch.VisitAll(e, t, positions).requests[i])
  {
    if |positions| > 0 {
      VisitsName(e, t, positions[..|positions| - 1]);
    }
  }

  lemma {:induction false} JobsName(start: map<string, string>, events: seq<Watch.Event>)
    ensures NamingOps(Watch.QueueOps(start, events))
  {
    if |events| > 0 {
      var earlier, last := events[..|events| - 1], events[|events| - 1];
      JobsName(start, earlier);
      if last.TickEvent? {
        var digests := Watch.DigestsAfter(start, earlier);
        RemovalsName(digests, Watch.Removed(last.tick));
        VisitsName(Watch.ForgetAll(digests, Watch.Removed(last.tick)), last.tick,
                   last.tick.onChain);
      }
    }
  }

  lemma {:induction false} AcceptedName(ops: seq<Op<Watch.ComputeJob>>)
    requires NamingOps(ops)
    ensures forall i | 0 <= i < |Accepted(ops)| :: Names(Accepted(ops)[i])
  {
    if |ops| > 0 {
      AcceptedName(ops[..|ops| - 1]);
    }
  }

  lemma KeyNamesPosition(item: Item<Watch.ComputeJob>, position: string)
    requires Names(item)
    requires item.key == "position_changed:" + position || item.key == "position_removed:" + position
    ensures item.payload.position == position
  {
    var n := |item.key| - |position|;
    assert n == 17;
    assert item.key[9] == 'c' || item.key[9] == 'r';
    assert item.key[17..] == position;
    assert item.key[17..] == item.payload.position;
  }

  // ----- the composition -----

  /** What became of job `k` for a position: it waits, or was given to the worker's call `k`, and
      wherever that worker has processed it, reading the position threw or called for nothing,
      or the very action called for was delivered to an executor, or waits. */
  ghost predicate Attended(
    start: map<string, string>, events: seq<Event>, k: nat, position: string)
  {
    var jobs := JobOps(start, events);
    && k < |Accepted(jobs)|
    && Accepted(jobs)[k].payload.PositionChanged?
    && Accepted(jobs)[k].payload.position == position
    && (k < DequeueCalls(jobs) ==> Run(jobs).delivered.Keys >= {k}
                                   && Run(jobs).delivered[k] == Accepted(jobs)[k])
    && (k >= DequeueCalls(jobs) ==> Accepted(jobs)[k] in Run(jobs).items)
    && forall e | 0 <= e < |events| && events[e].Work? && events[e].call == k ::
         Acted(events, e, position)
  }

  ghost predicate Acted(events: seq<Event>, e: nat, position: string)
    requires e < |events| && events[e].Work?
  {
    && |events[e].readings| == 1 && events[e].readings[0].position == position
    && var r := events[e].readings[0];
       r.Throws() || r.Asked().None?
       || exists asked: seq<Op<ExecuteJob>> ::
            && ActionOps(events[..e]) <= asked
            && ActionServed(asked, ActionOps(events), r.Asked().value.payload.kind, position)
  }

  lemma WorkActs(start: map<string, string>, events: seq<Event>, e: nat, k: nat, position: string)
    requires Works(start, events) && e < |events| && events[e].Work? && events[e].call == k
    requires k < |Accepted(JobOps(start, events))|
    requires Accepted(JobOps(start, events))[k].payload.PositionChanged?
    requires Accepted(JobOps(start, events))[k].payload.position == position
    ensures Acted(events, e, position)
  {
    var readings := events[e].readings;
    GivenJob(start, events, e, k);
    var r := readings[0];
    if !r.Throws() && r.Asked().Some? {
      assert Completed(readings) == 1 by { assert readings[0] == r; }
      var more := ActionSplit(events, e);
      AllActs(events[..e]);
      var asked := JobServesEveryPosition(ActionOps(events[..e]), readings, 0, more);
      assert ActionServed(asked, ActionOps(events), r.Asked().value.payload.kind, position);
    }
  }

  /** The job a worker processes is the one its call was given, whatever happened since. */
  lemma GivenJob(start: map<string, string>, events: seq<Event>, e: nat, k: nat)
    requires Works(start, events) && e < |events| && events[e].Work? && events[e].call == k
    requires k < |Accepted(JobOps(start, events))|
    requires Accepted(JobOps(start, events))[k].payload.PositionChanged?
    ensures |events[e].readings| == 1
    ensures events[e].readings[0].position
            == Accepted(JobOps(start, events))[k].payload.position
  {
    var then', now := JobOps(start, events[..e]), JobOps(start, events);
    assert GivenTo(then', k, events[e].readings);
    EveryHistory(then');
    JobOpsPrefix(start, events, e);
    HistoryGrows(then', now[|then'|..]);
    assert now == then' + now[|then'|..];
  }

  /** Over any run of ticks, workers and executors: if a recorded digest changes or disappears
      between two moments, a job for that position, not yet delivered at some moment between
      them, is attended to. */
  lemma ChangesReachTheExecutor(
    start: map<string, string>, events: seq<Event>, i: nat, j: nat, position: string)
    returns (k: nat)
    requires i <= j <= |events| && Works(start, events)
    requires position in DigestsAt(start, events[..i])
    requires !Watch.SameDigest(DigestsAt(start, events[..i]), DigestsAt(start, events[..j]), position)
    ensures Served(JobOps(start, events[..i])) <= k
    ensures Attended(start, events, k, position)
  {
    var key;
    k, key := AnsweringJob(start, events, i, j, position);
    JobStands(start, events, k, key, position);
    forall e | 0 <= e < |events| && events[e].Work? && events[e].call == k
      ensures Acted(events, e, position)
    {
      WorkActs(start, events, e, k, position);
    }
  }

  lemma JobStands(
    start: map<string, string>, events: seq<Event>, k: nat, key: string, position: string)
    requires key == "position_changed:" + position || key == "position_removed:" + position
    requires k < |Accepted(JobOps(start, events))|
    requires Accepted(JobOps(start, events))[k].key == key
    ensures var jobs := JobOps(start, events);
            && Accepted(jobs)[k].payload.PositionChanged?
            && Accepted(jobs)[k].payload.position == position
            && (k < DequeueCalls(jobs) ==> Run(jobs).delivered.Keys >= {k}
                                           && Run(jobs).delivered[k] == Accepted(jobs)[k])
            && (k >= DequeueCalls(jobs) ==> Accepted(jobs)[k] in Run(jobs).items)
  {
    var jobs := JobOps(start, events);
    assert Names(Accepted(jobs)[k]) by {
      JobsName(start, Watched(events));
      AcceptedName(jobs);
    }
    KeyNamesPosition(Accepted(jobs)[k], position);
    DeliveredOrWaiting(jobs, k);
  }

  lemma DeliveredOrWaiting(jobs: seq<Op<Watch.ComputeJob>>, k: nat)
    requires k < |Accepted(jobs)|
    ensures k < DequeueCalls(jobs) ==> Run(jobs).delivered.Keys >= {k}
                                       && Run(jobs).delivered[k] == Accepted(jobs)[k]
    ensures k >= DequeueCalls(jobs) ==> Accepted(jobs)[k] in Run(jobs).items
  {
    EveryHistory(jobs);
    if k >= DequeueCalls(jobs) {
      assert Run(jobs).items[k - Served(jobs)] == Accepted(jobs)[k];
    }
  }

  lemma AnsweringJob(
    start: map<string, string>, events: seq<Event>, i: nat, j: nat, position: string)
    returns (k: nat, key: string)
    requires i <= j <= |events|
    requires position in DigestsAt(start, events[..i])
    requires !Watch.SameDigest(DigestsAt(start, events[..i]), DigestsAt(start, events[..j]), position)
    ensures key == "position_changed:" + position || key == "position_removed:" + position
    ensures Served(JobOps(start, events[..i])) <= k < |Accepted(JobOps(start, events))|
    ensures Accepted(JobOps(start, events))[k].key == key
  {
    var ops := AnsweredBetween(start, events, i, j, position);
    var jobs := JobOps(start, events);
    key := if ServedSince(ops, jobs, "position_changed:" + position)
           then "position_changed:" + position else "position_removed:" + position;
    assert ServedSince(ops, jobs, key);
    k :| DeliversAt(ops, jobs, key, k);
    ServedGrows(JobOps(start, events[..i]), ops);
  }

  lemma AnsweredBetween(
    start: map<string, string>, events: seq<Event>, i: nat, j: nat, position: string)
    returns (ops: seq<Op<Watch.ComputeJob>>)
    requires i <= j <= |events|
    requires position in DigestsAt(start, events[..i])
    requires !Watch.SameDigest(DigestsAt(start, events[..i]), DigestsAt(start, events[..j]), position)
    ensures JobOps(start, events[..i]) <= ops
    ensures Watch.AnsweredSince(ops, JobOps(start, events), position)
  {
    var watched := Watched(events);
    WatchedPrefix(events, i);
    WatchedPrefix(events, j);
    assert events[..j][..i] == events[..i];
    WatchedPrefix(events[..j], i);
    var m, n := |Watched(events[..i])|, |Watched(events[..j])|;
    assert watched[..m] == Watched(events[..i]) && watched[..n] == Watched(events[..j]);
    Watch.DigestChangesAreNeverLost(start, watched, m, n, position);
    ops :| && Watch.QueueOps(start, watched[..m]) <= ops <= Watch.QueueOps(start, watched[..n])
           && Watch.AnsweredSince(ops, Watch.QueueOps(start, watched), position);
  }

  lemma ServedGrows(ops: seq<Op<Watch.ComputeJob>>, later: seq<Op<Watch.ComputeJob>>)
    requires ops <= later
    ensures Served(ops) <= Served(later)
  {
    HistoryGrows(ops, later[|ops|..]);
    assert later == ops + later[|ops|..];
  }
}
