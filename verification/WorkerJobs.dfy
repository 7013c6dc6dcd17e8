/** What the worker's jobs guarantee through the queue of actions. */
module WorkerJobs {
  import opened FixedPoint
  import opened DedupQueue
  import opened LtvWorker

  /** Actions of different kinds, or for different positions, never share a key. */
  lemma ActionKeysDistinct(kind: Kind, position: string, kind': Kind, position': string)
    ensures ActionItem(kind, position).key == ActionItem(kind', position').key
            <==> kind == kind' && position == position'
  {
    var key, key' := ActionItem(kind, position).key, ActionItem(kind', position').key;
    if kind != kind' {
      assert key[7] != key'[7];
    } else if key == key' {
      var n := |key| - |position|;
      assert key[n..] == position && key'[n..] == position';
    }
  }

  /** Workers put actions in the execute queue, and a retry puts one back unchanged. */
  ghost predicate IsAction(item: Item<ExecuteJob>) {
    item == ActionItem(item.payload.kind, item.payload.position)
  }

  ghost predicate ActionHistory(ops: seq<Op<ExecuteJob>>) {
    forall i | 0 <= i < |ops| && ops[i].EnqueueOp? :: IsAction(ops[i].item)
  }

  lemma {:induction false} AcceptedAreActions(ops: seq<Op<ExecuteJob>>)
    requires ActionHistory(ops)
    ensures forall i | 0 <= i < |Accepted(ops)| :: IsAction(Accepted(ops)[i])
  {
    if |ops| > 0 {
      AcceptedAreActions(ops[..|ops| - 1]);
    }
  }

  /** This very action, not delivered after `ops`, is delivered in `all` or still waits. */
  ghost predicate ActionServed(
    ops: seq<Op<ExecuteJob>>, all: seq<Op<ExecuteJob>>, kind: Kind, position: string)
  {
    exists k: nat :: ActionServedAt(ops, all, ActionItem(kind, position), k)
  }

  ghost predicate ActionServedAt(
    ops: seq<Op<ExecuteJob>>, all: seq<Op<ExecuteJob>>, item: Item<ExecuteJob>, k: nat)
  {
    && Served(ops) <= k < |Accepted(all)|
    && (k < DequeueCalls(all) ==> k in Run(all).delivered && Run(all).delivered[k] == item)
    && (k >= DequeueCalls(all) ==> item in Run(all).items)
  }

  lemma KeyServedIsActionServed(
    ops: seq<Op<ExecuteJob>>, all: seq<Op<ExecuteJob>>, kind: Kind, position: string)
    requires ActionHistory(all) && ServedSince(ops, all, ActionItem(kind, position).key)
    ensures ActionServed(ops, all, kind, position)
  {
    var item := ActionItem(kind, position);
    var k: nat :| DeliversAt(ops, all, item.key, k);
    AcceptedAreActions(all);
    var got := Accepted(all)[k];
    ActionKeysDistinct(got.payload.kind, got.payload.position, kind, position);
    EveryHistory(all);
    if k >= DequeueCalls(all) {
      assert Run(all).items[k - Served(all)] == item;
    }
    assert ActionServedAt(ops, all, item, k);
  }

  /** A refused action is one already pending: the same kind for the same position. */
  lemma RefusedIffActionPending(ops: seq<Op<ExecuteJob>>, kind: Kind, position: string)
    requires ActionHistory(ops)
    ensures !Enqueue(Run(ops), ActionItem(kind, position)).1
            <==> ActionItem(kind, position) in Run(ops).items
  {
    var item, q := ActionItem(kind, position), Run(ops);
    EveryHistory(ops);
    AcceptedAreActions(ops);
    if item.key in q.keys {
      var i :| 0 <= i < |q.items| && q.items[i].key == item.key;
      assert q.items[i] == Accepted(ops)[Served(ops) + i];
      ActionKeysDistinct(q.items[i].payload.kind, q.items[i].payload.position, kind, position);
    }
  }

  /** A job asks for exactly the actions its readings call for, each at its own place. */
  lemma {:induction false} RequestPlace(readings: seq<Reading>, i: nat) returns (n: nat)
    requires i < |readings| && readings[i].Asked().Some?
    ensures n < |Requests(readings)| && Requests(readings)[n] == readings[i].Asked().value
  {
    var last := |readings| - 1;
    if i == last {
      n := |Requests(readings[..last])|;
    } else {
      n := RequestPlace(readings[..last], i);
    }
  }

  lemma {:induction false} RequestHasReading(readings: seq<Reading>, n: nat) returns (i: nat)
    requires n < |Requests(readings)|
    ensures i < |readings| && readings[i].Asked() == Some(Requests(readings)[n])
  {
    var last := |readings| - 1;
    if n == |Requests(readings[..last])| {
      i := last;
    } else {
      i := RequestHasReading(readings[..last], n);
    }
  }

  /** Over any history of the action queue, every position a job gets through whose figures
      call for an action has that action delivered or waiting, from the moment the worker
      asked for it, even where the queue refused the request. */
  lemma JobServesEveryPosition(
    before: seq<Op<ExecuteJob>>, readings: seq<Reading>, i: nat, more: seq<Op<ExecuteJob>>)
    returns (asked: seq<Op<ExecuteJob>>)
    requires i < Completed(readings) && readings[i].injected.Some?
    requires readings[i].figures.value.Action(readings[i].injected.value).Some?
    requires ActionHistory(before) && ActionHistory(more)
    ensures var requests := Requests(readings[..Completed(readings)]);
            && before <= asked <= before + Enqueues(requests)
            && ActionServed(asked, before + Enqueues(requests) + more,
                 readings[i].figures.value.Action(readings[i].injected.value).value,
                 readings[i].position)
    ensures Run(before + Enqueues(Requests(readings[..Completed(readings)])))
            == EnqueueAll(Run(before), Requests(readings[..Completed(readings)]))
  {
    var visited := readings[..Completed(readings)];
    var requests, r := Requests(visited), readings[i];
    var kind := r.figures.value.Action(r.injected.value).value;
    BatchRuns(before, requests);
    JobKeepsActions(visited);
    var n := RequestPlace(visited, i);
    asked := before + Enqueues(requests[..n]);
    BatchServes(before, requests, n, more, kind, r.position);
  }

  lemma BatchServes(
    before: seq<Op<ExecuteJob>>, requests: seq<Item<ExecuteJob>>, n: nat,
    more: seq<Op<ExecuteJob>>, kind: Kind, position: string)
    requires n < |requests| && requests[n] == ActionItem(kind, position)
    requires ActionHistory(before) && ActionHistory(Enqueues(requests)) && ActionHistory(more)
    ensures before + Enqueues(requests[..n]) <= before + Enqueues(requests)
    ensures ActionServed(before + Enqueues(requests[..n]),
                         before + Enqueues(requests) + more, kind, position)
  {
    var all := before + Enqueues(requests) + more;
    ServedInside(before, requests, n, all);
    KeyServedIsActionServed(before + Enqueues(requests[..n]), all, kind, position);
  }

  lemma JobKeepsActions(readings: seq<Reading>)
    ensures ActionHistory(Enqueues(Requests(readings)))
  {
    forall n | 0 <= n < |Requests(readings)| ensures IsAction(Requests(readings)[n]) {
      var i := RequestHasReading(readings, n);
    }
  }

  /** A position that cannot be read hides the ones listed after it: the job does what it
      would do if the list ended there. */
  lemma {:induction false} ThrowHidesTheRest(
    readings: seq<Reading>, unread: Reading, rest: seq<Reading>)
    requires unread.Throws()
    ensures var seen := readings + [unread];
            && Completed(seen + rest) == Completed(seen) <= |readings|
            && (seen + rest)[..Completed(seen + rest)] == readings[..Completed(seen)]
  {
    var seen := readings + [unread];
    if |readings| > 0 && !readings[0].Throws() {
      ThrowHidesTheRest(readings[1..], unread, rest);
      assert (seen + rest)[1..] == readings[1..] + [unread] + rest;
      assert seen[1..] == readings[1..] + [unread];
    }
  }
}
