/** The keeper's deduplicating queue: jobs wait for consumers or consumers wait for jobs, and
    a key is refused while a job with it is pending. */
module DedupQueue {
  import opened FixedPoint

  datatype Item<T> = Item(key: string, payload: T)

  /** `waiters` holds the call numbers of unresolved dequeue calls, `calls` counts dequeue
      calls, and `delivered` is what each resolved call received. */
  datatype State<T> = State(
    items: seq<Item<T>>,
    keys: set<string>,
    waiters: seq<nat>,
    calls: nat,
    delivered: map<nat, Item<T>>)

  function Empty<T>(): State<T> {
    State([], {}, [], 0, map[])
  }

  function Enqueue<T>(q: State<T>, item: Item<T>): (State<T>, bool) {
    if item.key in q.keys then (q, false)
    else if |q.waiters| > 0 then
      (q.(waiters := q.waiters[1..], delivered := q.delivered[q.waiters[0] := item],
          keys := (q.keys + {item.key}) - {item.key}), true)
    else (q.(items := q.items + [item], keys := q.keys + {item.key}), true)
  }

  function Dequeue<T>(q: State<T>): State<T> {
    if |q.items| > 0 then
      q.(items := q.items[1..], keys := q.keys - {q.items[0].key}, calls := q.calls + 1,
         delivered := q.delivered[q.calls := q.items[0]])
    else q.(waiters := q.waiters + [q.calls], calls := q.calls + 1)
  }

  class Queue<T> {
    var items: seq<Item<T>>
    var dedupeKeys: set<string>
    var waiters: seq<nat>
    var calls: nat
    var delivered: map<nat, Item<T>>

    function Contents(): State<T>
      reads this
    {
      State(items, dedupeKeys, waiters, calls, delivered)
    }

    constructor ()
      ensures Contents() == Empty()
    {
      items, dedupeKeys, waiters, calls, delivered := [], {}, [], 0, map[];
    }

    /** True when the job was accepted. */
    method Push(item: Item<T>) returns (accepted: bool)
      modifies this
      ensures Contents() == Enqueue(old(Contents()), item).0
      ensures accepted == Enqueue(old(Contents()), item).1
    {
      if item.key in dedupeKeys { return false; }
      dedupeKeys := dedupeKeys + {item.key};
      if |waiters| > 0 {
        var waiter := waiters[0];
        waiters := waiters[1..];
        dedupeKeys := dedupeKeys - {item.key};
        delivered := delivered[waiter := item];
        return true;
      }
      items := items + [item];
      accepted := true;
    }

    /** Resolves at once when a job is pending, and otherwise waits. */
    method Pop() returns (immediate: Option<Item<T>>)
      modifies this
      ensures Contents() == Dequeue(old(Contents()))
      ensures immediate == if |old(items)| > 0 then Some(old(items)[0]) else None
    {
      var call := calls;
      calls := calls + 1;
      if |items| > 0 {
        var head := items[0];
        items := items[1..];
        dedupeKeys := dedupeKeys - {head.key};
        delivered := delivered[call := head];
        return Some(head);
      }
      waiters := waiters + [call];
      immediate := None;
    }
  }

  // ----- histories -----

  datatype Op<T> = EnqueueOp(item: Item<T>) | DequeueOp

  function Step<T>(q: State<T>, op: Op<T>): State<T> {
    match op
    case EnqueueOp(item) => Enqueue(q, item).0
    case DequeueOp => Dequeue(q)
  }

  function Run<T>(ops: seq<Op<T>>): State<T> {
    if |ops| == 0 then Empty() else Step(Run(ops[..|ops| - 1]), ops[|ops| - 1])
  }

  /** The accepted jobs, in the order of their enqueue calls. */
  function Accepted<T>(ops: seq<Op<T>>): seq<Item<T>> {
    if |ops| == 0 then []
    else
      var earlier, op := ops[..|ops| - 1], ops[|ops| - 1];
      if op.EnqueueOp? && op.item.key !in Run(earlier).keys then Accepted(earlier) + [op.item]
      else Accepted(earlier)
  }

  function DequeueCalls<T>(ops: seq<Op<T>>): nat {
    if |ops| == 0 then 0
    else DequeueCalls(ops[..|ops| - 1]) + (if ops[|ops| - 1].DequeueOp? then 1 else 0)
  }

  /** How many dequeue calls have resolved. */
  function Served<T>(ops: seq<Op<T>>): nat {
    Min(DequeueCalls(ops), |Accepted(ops)|)
  }

  ghost predicate DistinctKeys<T>(items: seq<Item<T>>) {
    forall i, j | 0 <= i < j < |items| :: items[i].key != items[j].key
  }

  ghost predicate KeysOf<T>(keys: set<string>, items: seq<Item<T>>) {
    && (forall i | 0 <= i < |items| :: items[i].key in keys)
    && (forall k | k in keys :: exists i :: 0 <= i < |items| && items[i].key == k)
  }

  /** The state is determined by the accepted jobs and the number of dequeue calls: call `k`
      got job `k`, the rest of the jobs or of the calls wait, never both. */
  ghost predicate Consistent<T>(q: State<T>, accepted: seq<Item<T>>, calls: nat) {
    var served := Min(calls, |accepted|);
    && q.calls == calls
    && q.items == accepted[served..]
    && DistinctKeys(q.items) && KeysOf(q.keys, q.items)
    && |q.waiters| == calls - served
    && (forall i | 0 <= i < |q.waiters| :: q.waiters[i] == served + i)
    && (forall k: nat :: k in q.delivered <==> k < served)
    && (forall k: nat | k < served :: q.delivered[k] == accepted[k])
  }

  lemma EnqueueConsistent<T>(q: State<T>, accepted: seq<Item<T>>, calls: nat, item: Item<T>)
    requires Consistent(q, accepted, calls)
    ensures Enqueue(q, item).1 <==> forall i | 0 <= i < |q.items| :: q.items[i].key != item.key
    ensures Enqueue(q, item).1 ==> Consistent(Enqueue(q, item).0, accepted + [item], calls)
    ensures !Enqueue(q, item).1 ==> Enqueue(q, item).0 == q
  {
    if item.key !in q.keys {
      if |q.waiters| > 0 {
        HandOver(q, accepted, calls, item);
      } else {
        Append(q, accepted, calls, item);
      }
    }
  }

  lemma HandOver<T>(q: State<T>, accepted: seq<Item<T>>, calls: nat, item: Item<T>)
    requires Consistent(q, accepted, calls) && item.key !in q.keys && |q.waiters| > 0
    ensures Consistent(Enqueue(q, item).0, accepted + [item], calls)
  {
    assert Enqueue(q, item).0.keys == q.keys;
    assert (accepted + [item])[|accepted| + 1..] == [];
  }

  lemma KeysGrow<T>(keys: set<string>, items: seq<Item<T>>, item: Item<T>)
    requires KeysOf(keys, items)
    ensures KeysOf(keys + {item.key}, items + [item])
  {
    forall k | k in keys + {item.key}
      ensures exists i :: 0 <= i < |items + [item]| && (items + [item])[i].key == k
    {
      if k == item.key {
        assert (items + [item])[|items|].key == k;
      } else {
        var i :| 0 <= i < |items| && items[i].key == k;
        assert (items + [item])[i].key == k;
      }
    }
  }

  lemma Append<T>(q: State<T>, accepted: seq<Item<T>>, calls: nat, item: Item<T>)
    requires Consistent(q, accepted, calls) && item.key !in q.keys && |q.waiters| == 0
    ensures Consistent(Enqueue(q, item).0, accepted + [item], calls)
  {
    assert (accepted + [item])[calls..] == accepted[calls..] + [item];
    KeysGrow(q.keys, q.items, item);
  }

  lemma DequeueConsistent<T>(q: State<T>, accepted: seq<Item<T>>, calls: nat)
    requires Consistent(q, accepted, calls)
    ensures Consistent(Dequeue(q), accepted, calls + 1)
  {
    if |q.items| > 0 {
      Deliver(q, accepted, calls);
    }
  }

  lemma Deliver<T>(q: State<T>, accepted: seq<Item<T>>, calls: nat)
    requires Consistent(q, accepted, calls) && |q.items| > 0
    ensures Consistent(Dequeue(q), accepted, calls + 1)
  {
    assert accepted[calls..][1..] == accepted[calls + 1..];
    KeysShrink(q.keys, q.items);
  }

  lemma KeysShrink<T>(keys: set<string>, items: seq<Item<T>>)
    requires KeysOf(keys, items) && DistinctKeys(items) && |items| > 0
    ensures KeysOf(keys - {items[0].key}, items[1..])
  {
    forall k | k in keys - {items[0].key}
      ensures exists i :: 0 <= i < |items[1..]| && items[1..][i].key == k
    {
      var i :| 0 <= i < |items| && items[i].key == k;
      assert items[1..][i - 1].key == k;
    }
  }

  /** Some accepted job with this key has not been delivered. */
  ghost predicate Pending<T>(ops: seq<Op<T>>, key: string) {
    exists i: nat :: Served(ops) <= i < |Accepted(ops)| && Accepted(ops)[i].key == key
  }

  /** Over every interleaving of enqueue and dequeue, the k-th dequeue call gets the k-th
      accepted job, and the key set holds exactly the keys of accepted, undelivered jobs. */
  lemma {:induction false} EveryHistory<T>(ops: seq<Op<T>>)
    ensures Consistent(Run(ops), Accepted(ops), DequeueCalls(ops))
  {
    if |ops| > 0 {
      var earlier, op := ops[..|ops| - 1], ops[|ops| - 1];
      EveryHistory(earlier);
      match op
      case EnqueueOp(item) =>
        EnqueueConsistent(Run(earlier), Accepted(earlier), DequeueCalls(earlier), item);
      case DequeueOp => DequeueConsistent(Run(earlier), Accepted(earlier), DequeueCalls(earlier));
    }
  }

  /** An enqueue is refused exactly when a job with its key is pending. */
  lemma RefusedIffPending<T>(ops: seq<Op<T>>, item: Item<T>)
    ensures Enqueue(Run(ops), item).1 <==> !Pending(ops, item.key)
  {
    EveryHistory(ops);
    var q, accepted, served := Run(ops), Accepted(ops), Served(ops);
    if item.key in q.keys {
      var i :| 0 <= i < |q.items| && q.items[i].key == item.key;
      assert accepted[served + i].key == item.key;
    } else {
      forall i: nat | served <= i < |accepted| ensures accepted[i].key != item.key {
        assert q.items[i - served] == accepted[i];
      }
    }
  }

  /** Later operations only extend the accepted jobs and the number of calls. */
  lemma {:induction false} HistoryGrows<T>(ops: seq<Op<T>>, more: seq<Op<T>>)
    ensures Accepted(ops) <= Accepted(ops + more)
    ensures DequeueCalls(ops) <= DequeueCalls(ops + more)
  {
    if |more| == 0 {
      assert ops + more == ops;
    } else {
      var all := ops + more;
      assert all[..|all| - 1] == ops + more[..|more| - 1];
      HistoryGrows(ops, more[..|more| - 1]);
    }
  }

  /** A job with the key that was not yet delivered after `ops`, and is delivered in `all`
      once dequeue has been called often enough. */
  ghost predicate ServedSince<T>(ops: seq<Op<T>>, all: seq<Op<T>>, key: string) {
    exists k: nat :: DeliversAt(ops, all, key, k)
  }

  ghost predicate DeliversAt<T>(ops: seq<Op<T>>, all: seq<Op<T>>, key: string, k: nat) {
    && Served(ops) <= k < |Accepted(all)| && Accepted(all)[k].key == key
    && (k < DequeueCalls(all) ==> k in Run(all).delivered && Run(all).delivered[k].key == key)
    && (k >= DequeueCalls(all) ==> key in Run(all).keys)
  }

  /** Every enqueue call is answered, even a refused one: a job with its key is pending or
      delivered at or after the call. */
  lemma RequestServed<T>(ops: seq<Op<T>>, item: Item<T>, more: seq<Op<T>>)
    ensures ServedSince(ops, ops + [EnqueueOp(item)] + more, item.key)
  {
    var asked := ops + [EnqueueOp(item)];
    var all := asked + more;
    assert asked[..|asked| - 1] == ops;
    EveryHistory(ops);
    EveryHistory(all);
    HistoryGrows(asked, more);
    RefusedIffPending(ops, item);
    var k: nat;
    if Enqueue(Run(ops), item).1 {
      k := |Accepted(ops)|;
    } else {
      k :| Served(ops) <= k < |Accepted(ops)| && Accepted(ops)[k].key == item.key;
    }
    assert Accepted(asked)[k].key == item.key;
    assert Accepted(all)[k] == Accepted(asked)[k];
    if k >= DequeueCalls(all) {
      assert Run(all).items[k - Served(all)] == Accepted(all)[k];
    }
    assert DeliversAt(ops, all, item.key, k);
  }

  // ----- batches of requests -----

  function EnqueueAll<T>(q: State<T>, requests: seq<Item<T>>): State<T> {
    if |requests| == 0 then q
    else Enqueue(EnqueueAll(q, requests[..|requests| - 1]), requests[|requests| - 1]).0
  }

  lemma EnqueueOneMore<T>(q: State<T>, requests: seq<Item<T>>, r: Item<T>)
    ensures EnqueueAll(q, requests + [r]) == Enqueue(EnqueueAll(q, requests), r).0
  {
    assert (requests + [r])[..|requests|] == requests;
  }

  function Enqueues<T>(requests: seq<Item<T>>): (r: seq<Op<T>>)
    ensures |r| == |requests|
    ensures forall i | 0 <= i < |r| :: r[i] == EnqueueOp(requests[i])
  {
    seq(|requests|, i requires 0 <= i < |requests| => EnqueueOp(requests[i]))
  }

  /** The queue a batch leaves behind is the queue its enqueue calls lead to. */
  lemma {:induction false} BatchRuns<T>(ops: seq<Op<T>>, requests: seq<Item<T>>)
    ensures Run(ops + Enqueues(requests)) == EnqueueAll(Run(ops), requests)
  {
    if |requests| == 0 {
      assert ops + Enqueues(requests) == ops;
    } else {
      var n := |requests| - 1;
      var all := ops + Enqueues(requests);
      assert all[..|all| - 1] == ops + Enqueues(requests[..n]);
      assert all[|all| - 1] == EnqueueOp(requests[n]);
      BatchRuns(ops, requests[..n]);
    }
  }

  /** A batch's n-th request splits the history at its enqueue call. */
  lemma RequestSplits<T>(before: seq<Op<T>>, requests: seq<Item<T>>, n: nat)
    requires n < |requests|
    ensures before + Enqueues(requests)
            == before + Enqueues(requests[..n]) + [EnqueueOp(requests[n])]
               + Enqueues(requests[n + 1..])
  {
    assert Enqueues(requests)
        == Enqueues(requests[..n]) + [EnqueueOp(requests[n])] + Enqueues(requests[n + 1..]);
  }

  lemma ServedInside<T>(
    before: seq<Op<T>>, requests: seq<Item<T>>, n: nat, all: seq<Op<T>>)
    requires n < |requests| && before + Enqueues(requests) <= all
    ensures before + Enqueues(requests[..n]) <= all
    ensures before + Enqueues(requests[..n]) <= before + Enqueues(requests)
    ensures ServedSince(before + Enqueues(requests[..n]), all, requests[n].key)
  {
    RequestSplits(before, requests, n);
    var ops := before + Enqueues(requests[..n]);
    var batchEnd := before + Enqueues(requests);
    var more := Enqueues(requests[n + 1..]) + all[|batchEnd|..];
    assert all == ops + [EnqueueOp(requests[n])] + more;
    RequestServed(ops, requests[n], more);
  }
}
