/** What one tick of the watcher reports, records and forgets, position by position. */
module WatcherReports {
  import opened FixedPoint
  import opened DedupQueue
  import opened PositionWatcher

  /** No position is listed twice. */
  ghost predicate Distinct(records: seq<Record>) {
    forall i, j | 0 <= i < j < |records| :: records[i].position != records[j].position
  }

  ghost predicate Listed(records: seq<Record>, position: string) {
    exists i :: 0 <= i < |records| && records[i].position == position
  }

  lemma {:induction false} LookupListed(records: seq<Record>, r: Record)
    requires Distinct(records) && r in records
    ensures Lookup(records, r.position) == Some(r)
  {
    var n := |records| - 1;
    if records[n] != r {
      var i :| 0 <= i < |records| && records[i] == r;
      assert records[..n][i] == r;
      LookupListed(records[..n], r);
    }
  }

  lemma NotListed(records: seq<Record>, position: string)
    ensures Lookup(records, position).None? <==> !Listed(records, position)
  {
    if Listed(records, position) {
      var i :| 0 <= i < |records| && records[i].position == position;
      assert records[i] in records;
    }
  }

  // ----- removals -----

  /** A position is removed exactly when the repository lists it and the chain does not. */
  lemma {:induction false} RemovedExactly(
    previous: seq<Record>, onChain: seq<Record>, position: string)
    ensures position in RemovedAmong(previous, onChain)
            <==> Listed(previous, position) && !Listed(onChain, position)
  {
    if |previous| > 0 {
      var n := |previous| - 1;
      RemovedExactly(previous[..n], onChain, position);
      NotListed(onChain, previous[n].position);
      ListedBefore(previous, position);
    }
  }

  lemma ListedBefore(records: seq<Record>, position: string)
    requires |records| > 0
    ensures Listed(records, position)
            <==> Listed(records[..|records| - 1], position)
                 || records[|records| - 1].position == position
  {
    var n := |records| - 1;
    if Listed(records[..n], position) {
      var i :| 0 <= i < n && records[..n][i].position == position;
      assert records[i].position == position;
    }
    if Listed(records, position) {
      var i :| 0 <= i < |records| && records[i].position == position;
      assert i < n ==> records[..n][i].position == position;
    }
  }

  lemma {:induction false} ForgottenExactly(digests: map<string, string>, removed: seq<string>)
    ensures var e := ForgetAll(digests, removed);
            && |e.requests| == |removed|
            && (forall i | 0 <= i < |removed| :: e.requests[i] == RemovedRequest(removed[i]))
            && (forall p :: p in e.digests <==> p in digests && p !in removed)
            && (forall p | p in e.digests :: e.digests[p] == digests[p])
  {
    if |removed| > 0 {
      var n := |removed| - 1;
      ForgottenExactly(digests, removed[..n]);
      assert removed == removed[..n] + [removed[n]];
    }
  }

  // ----- visits -----

  /** The watcher has known the position with other metadata. */
  ghost predicate Altered(t: Tick, o: Record) {
    exists i :: 0 <= i < |t.previous| && AlteredFrom(t.previous[i], o)
  }

  predicate AlteredFrom(r: Record, o: Record) {
    && r.position == o.position
    && (r.injected != o.injected || r.injectedAmount != o.injectedAmount
        || r.collateralVault != o.collateralVault
        || r.protocolObligation != o.protocolObligation)
  }

  /** Why an on-chain position is reported, if it is. */
  ghost predicate ReportedFor(
    t: Tick, digests: map<string, string>, o: Record, reason: string)
  {
    if !Listed(t.previous, o.position) then reason == "position_discovered"
    else if Altered(t, o) then reason == "position_metadata_changed"
    else
      && reason == "obligation_user_state_changed" && o.protocolObligation in t.fetched
      && o.position in digests && digests[o.position] != t.fetched[o.protocolObligation]
  }

  /** The digest of an on-chain position after the tick: the fetched one, unless none was or the
      metadata changed. */
  ghost predicate RecordedAs(
    t: Tick, digests: map<string, string>, o: Record, after: map<string, string>)
  {
    if o.protocolObligation in t.fetched && !Altered(t, o) then
      o.position in after && after[o.position] == t.fetched[o.protocolObligation]
    else SameAt(digests, after, o.position)
  }

  predicate SameAt(a: map<string, string>, b: map<string, string>, p: string) {
    && (p in a <==> p in b) && (p in a ==> a[p] == b[p])
  }

  lemma VisitExactly(e: Effect, t: Tick, o: Record, reason: string)
    requires Distinct(t.previous)
    ensures var v := Visit(e, t, o);
            && (v.requests == e.requests
                || (|v.requests| == |e.requests| + 1 && v.requests[..|e.requests|] == e.requests
                    && IsChange(v.requests[|e.requests|])
                    && v.requests[|e.requests|].payload.position == o.position))
            && (ReportedFor(t, e.digests, o, reason)
                <==> v.requests == e.requests + [ChangedRequest(o.position, reason)])
            && RecordedAs(t, e.digests, o, v.digests)
            && (forall p | p != o.position :: SameAt(e.digests, v.digests, p))
  {
    NotListed(t.previous, o.position);
    PriorIs(t, o);
  }

  lemma PriorIs(t: Tick, o: Record)
    requires Distinct(t.previous)
    ensures Lookup(t.previous, o.position).Some? ==>
              (Altered(t, o) <==> !SameMetadata(Lookup(t.previous, o.position).value, o))
    ensures Lookup(t.previous, o.position).None? ==> !Altered(t, o)
  {
    if Altered(t, o) {
      var i :| 0 <= i < |t.previous| && AlteredFrom(t.previous[i], o);
      LookupListed(t.previous, t.previous[i]);
    } else if Lookup(t.previous, o.position).Some? {
      var r := Lookup(t.previous, o.position).value;
      var i :| 0 <= i < |t.previous| && t.previous[i] == r;
      assert !AlteredFrom(t.previous[i], o);
    }
  }

  /** What visiting some of the on-chain positions did to one of them, or to another. */
  ghost predicate VisitedExactly(
    e: Effect, t: Tick, positions: seq<Record>, v: Effect, o: Record, reason: string)
  {
    && e.requests <= v.requests
    && (o in positions ==>
          && (ReportedFor(t, e.digests, o, reason)
              <==> ChangedRequest(o.position, reason) in v.requests[|e.requests|..])
          && RecordedAs(t, e.digests, o, v.digests))
    && (!Listed(positions, o.position) ==>
          && ChangedRequest(o.position, reason) !in v.requests[|e.requests|..]
          && SameAt(e.digests, v.digests, o.position))
    && (forall i | |e.requests| <= i < |v.requests| :: IsChange(v.requests[i]))
  }

  ghost predicate IsChange(r: Item<ComputeJob>) {
    r.payload.PositionChanged? && r == ChangedRequest(r.payload.position, r.payload.reason)
  }

  lemma {:induction false} VisitsExactly(
    e: Effect, t: Tick, positions: seq<Record>, o: Record, reason: string)
    requires Distinct(t.previous) && Distinct(positions)
    ensures VisitedExactly(e, t, positions, VisitAll(e, t, positions), o, reason)
  {
    if |positions| > 0 {
      var n := |positions| - 1;
      var rest, last := positions[..n], positions[n];
      assert positions == rest + [last];
      VisitsExactly(e, t, rest, o, reason);
      LastVisit(e, VisitAll(e, t, rest), t, rest, last, o, reason);
    }
  }

  /** What is reported and recorded depends on the position's own digest alone. */
  lemma SameReport(
    t: Tick, a: map<string, string>, b: map<string, string>, o: Record, reason: string,
    after: map<string, string>)
    requires SameAt(a, b, o.position)
    ensures ReportedFor(t, a, o, reason) <==> ReportedFor(t, b, o, reason)
    ensures RecordedAs(t, a, o, after) <==> RecordedAs(t, b, o, after)
  {
  }

  lemma LastVisit(
    e: Effect, mid: Effect, t: Tick, rest: seq<Record>, last: Record, o: Record, reason: string)
    requires Distinct(t.previous) && Distinct(rest + [last])
    requires VisitedExactly(e, t, rest, mid, o, reason)
    ensures VisitedExactly(e, t, rest + [last], Visit(mid, t, last), o, reason)
  {
    VisitExactly(mid, t, last, reason);
    NotAmong(rest, last);
    ListedBefore(rest + [last], o.position);
    assert (rest + [last])[..|rest|] == rest;
    assert o in rest ==> Listed(rest, o.position);
    if o.position != last.position {
      OtherVisit(e, mid, t, rest, last, o, reason);
    } else if o == last {
      OwnVisit(e, mid, t, rest, o, reason);
    }
  }

  lemma OtherVisit(
    e: Effect, mid: Effect, t: Tick, rest: seq<Record>, last: Record, o: Record, reason: string)
    requires Distinct(t.previous) && o.position != last.position
    requires VisitedExactly(e, t, rest, mid, o, reason)
    ensures var v := Visit(mid, t, last);
            && e.requests <= v.requests && SameAt(mid.digests, v.digests, o.position)
            && (ChangedRequest(o.position, reason) in v.requests[|e.requests|..]
                <==> ChangedRequest(o.position, reason) in mid.requests[|e.requests|..])
            && (forall i | |e.requests| <= i < |v.requests| :: IsChange(v.requests[i]))
  {
    VisitExactly(mid, t, last, reason);
  }

  lemma OwnVisit(
    e: Effect, mid: Effect, t: Tick, rest: seq<Record>, o: Record, reason: string)
    requires Distinct(t.previous) && !Listed(rest, o.position)
    requires VisitedExactly(e, t, rest, mid, o, reason)
    ensures var v := Visit(mid, t, o);
            && e.requests <= v.requests && RecordedAs(t, e.digests, o, v.digests)
            && (ReportedFor(t, e.digests, o, reason)
                <==> ChangedRequest(o.position, reason) in v.requests[|e.requests|..])
            && (forall i | |e.requests| <= i < |v.requests| :: IsChange(v.requests[i]))
  {
    var v, c := Visit(mid, t, o), ChangedRequest(o.position, reason);
    VisitExactly(mid, t, o, reason);
    SameReport(t, e.digests, mid.digests, o, reason, v.digests);
    assert v.requests == mid.requests + [c] ==>
        v.requests[|e.requests|..] == mid.requests[|e.requests|..] + [c];
    if c in v.requests[|e.requests|..] {
      assert v.requests[|e.requests|..]
          == mid.requests[|e.requests|..] + v.requests[|mid.requests|..];
    }
  }

  lemma NotAmong(rest: seq<Record>, last: Record)
    requires Distinct(rest + [last])
    ensures !Listed(rest, last.position)
  {
    var all, n := rest + [last], |rest|;
    forall i | 0 <= i < n ensures rest[i].position != last.position {
      assert all[i] == rest[i] && all[n] == last;
    }
  }

  // ----- the tick -----

  /** A removal is reported exactly for the positions that left the chain, and forgets them. */
  lemma RemovalsReportedExactly(digests: map<string, string>, t: Tick, position: string)
    requires Distinct(t.previous) && Distinct(t.onChain)
    ensures var e := TickEffect(digests, t);
            && (RemovedRequest(position) in e.requests
                <==> Listed(t.previous, position) && !Listed(t.onChain, position))
            && (!Listed(t.onChain, position) ==>
                  if Listed(t.previous, position) then position !in e.digests
                  else SameAt(digests, e.digests, position))
  {
    var start := ForgetAll(digests, Removed(t));
    var e := TickEffect(digests, t);
    var o := Record(position, "", "", 0, false);
    ForgottenExactly(digests, Removed(t));
    RemovedExactly(t.previous, t.onChain, position);
    VisitsExactly(start, t, t.onChain, o, "");
    RemovedIn(start, e, Removed(t), position);
  }

  lemma RemovedIn(start: Effect, e: Effect, removed: seq<string>, position: string)
    requires |start.requests| == |removed| && start.requests <= e.requests
    requires forall i | 0 <= i < |removed| :: start.requests[i] == RemovedRequest(removed[i])
    requires forall i | |start.requests| <= i < |e.requests| :: IsChange(e.requests[i])
    ensures RemovedRequest(position) in e.requests <==> position in removed
  {
    if position in removed {
      var i :| 0 <= i < |removed| && removed[i] == position;
      assert e.requests[i] == RemovedRequest(position);
    }
    if RemovedRequest(position) in e.requests {
      var i :| 0 <= i < |e.requests| && e.requests[i] == RemovedRequest(position);
      if i >= |removed| {
        KeysDiffer(position, e.requests[i].payload.position);
      } else {
        assert removed[i] == position;
      }
    }
  }

  lemma KeysDiffer(removed: string, changed: string)
    ensures "position_removed:" + removed != "position_changed:" + changed
  {
    assert ("position_removed:" + removed)[9] == 'r';
    assert ("position_changed:" + changed)[9] == 'c';
  }

  /** A change is reported exactly for the on-chain positions that are new, have other metadata,
      or whose fetched digest differs from the recorded one; and the digest that was fetched is
      recorded, but where the metadata changed. */
  lemma ChangesReportedExactly(
    digests: map<string, string>, t: Tick, o: Record, reason: string)
    requires Distinct(t.previous) && Distinct(t.onChain)
    ensures var e := TickEffect(digests, t);
            && (o in t.onChain ==>
                  && (ChangedRequest(o.position, reason) in e.requests
                      <==> ReportedFor(t, digests, o, reason))
                  && RecordedAs(t, digests, o, e.digests))
            && (!Listed(t.onChain, o.position) ==>
                  ChangedRequest(o.position, reason) !in e.requests)
  {
    var start := ForgetAll(digests, Removed(t));
    var e := TickEffect(digests, t);
    ForgottenExactly(digests, Removed(t));
    RemovedExactly(t.previous, t.onChain, o.position);
    VisitsExactly(start, t, t.onChain, o, reason);
    ChangedIn(start, e, Removed(t), o.position, reason);
    if o in t.onChain {
      var i :| 0 <= i < |t.onChain| && t.onChain[i] == o;
      assert Listed(t.onChain, o.position);
      SameReport(t, digests, start.digests, o, reason, e.digests);
    }
  }

  lemma ChangedIn(
    start: Effect, e: Effect, removed: seq<string>, position: string, reason: string)
    requires |start.requests| == |removed| && start.requests <= e.requests
    requires forall i | 0 <= i < |removed| :: start.requests[i] == RemovedRequest(removed[i])
    ensures ChangedRequest(position, reason) in e.requests
            <==> ChangedRequest(position, reason) in e.requests[|start.requests|..]
  {
    if ChangedRequest(position, reason) in e.requests {
      var i :| 0 <= i < |e.requests| && e.requests[i] == ChangedRequest(position, reason);
      if i < |removed| {
        KeysDiffer(removed[i], position);
      } else {
        assert e.requests[|start.requests|..][i - |start.requests|] == e.requests[i];
      }
    }
  }

  /** After any run of ticks and consumers that ends with a tick, the digest recorded for a
      position on chain is the one that tick fetched, unless it fetched none or saw other
      metadata; and nothing is recorded for a position that has just been removed. */
  lemma RunRecordsFetched(
    start: map<string, string>, events: seq<Event>, t: Tick, o: Record, consumed: seq<Event>)
    requires Distinct(t.previous) && Distinct(t.onChain)
    requires forall event <- consumed :: event.ConsumeEvent?
    ensures var end := DigestsAfter(start, events + [TickEvent(t)] + consumed);
            && (o in t.onChain && o.protocolObligation in t.fetched && !Altered(t, o) ==>
                  o.position in end && end[o.position] == t.fetched[o.protocolObligation])
            && (Listed(t.previous, o.position) && !Listed(t.onChain, o.position) ==>
                  o.position !in end)
  {
    var ticked := events + [TickEvent(t)];
    ConsumersRecordNothing(start, ticked, consumed);
    assert ticked[..|ticked| - 1] == events;
    var before := DigestsAfter(start, events);
    ChangesReportedExactly(before, t, o, "");
    RemovalsReportedExactly(before, t, o.position);
  }

  lemma {:induction false} ConsumersRecordNothing(
    start: map<string, string>, events: seq<Event>, consumed: seq<Event>)
    requires forall event <- consumed :: event.ConsumeEvent?
    ensures DigestsAfter(start, events + consumed) == DigestsAfter(start, events)
  {
    if |consumed| == 0 {
      assert events + consumed == events;
    } else {
      var n := |consumed| - 1;
      var all := events + consumed;
      assert all[..|all| - 1] == events + consumed[..n];
      assert all[|all| - 1] == consumed[n] && consumed[n] in consumed;
      ConsumersRecordNothing(start, events, consumed[..n]);
    }
  }
}
