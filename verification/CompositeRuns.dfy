/** What holds of every run of a composite writer, whatever its inner writers answer. */
module CompositeRuns {
  import opened Wrappers
  import opened AssetKeys
  import opened CompositeWriter
  import StableSort

  // Where assets go.

  /** Two different keys reach one writer under one name exactly when they spell one overview differently. */
  lemma RoutesCollide(c: Composite, a: string, b: string)
    requires a != b && c.Route(a).Ok? && c.Route(b).Ok?
    ensures c.Route(a) == c.Route(b) <==> ParseOverviewKey(a).Some? && ParseOverviewKey(a) == ParseOverviewKey(b)
  {
    RouteOfLevel(c, a);
    RouteOfLevel(c, b);
  }

  /** An overview goes to the first writer of its level under the name of its image; anything else to the base writer under its own. */
  lemma RouteOfLevel(c: Composite, key: string)
    ensures ParseOverviewKey(key).None? ==> c.Route(key) == Ok((Base, key))
    ensures ParseOverviewKey(key).Some? ==>
              var (parent, level) := ParseOverviewKey(key).value;
              if c.Route(key).Ok?
              then c.Route(key).value.1 == parent
                   && exists k | 0 <= k < |c.rsets| ::
                        && c.Route(key).value.0 == RSet(c.rsets[k]) && c.rsets[k].level == level
                        && forall j | 0 <= j < k :: c.rsets[j].level != level
              else c.Route(key) == Err(NoWriter(level)) && forall i | 0 <= i < |c.rsets| :: c.rsets[i].level != level
  {
    if ParseOverviewKey(key).Some? {
      StableSort.FirstWithIs(LevelOf, c.rsets, ParseOverviewKey(key).value.1);
    }
  }

  /** With levels written without leading zeros or a sign, no two keys share a writer and a name. */
  lemma RoutingIsInjective(c: Composite, a: string, b: string)
    requires c.Route(a).Ok? && c.Route(a) == c.Route(b)
    requires ParseOverviewKey(a).Some? ==> Canonical(LevelText(a)) && Canonical(LevelText(b))
    ensures a == b
  {
    if a != b {
      RoutesCollide(c, a, b);
      SameOverview(a, b);
    }
  }

  /** Sorting the writers by level changes no route: the writer registered first for a level still comes first. */
  lemma SortingKeepsRoutes(rsets: seq<RsetWriter>, answer: seq<Call> -> Failure, key: string)
    ensures Composite(SortByLevel(rsets), answer).Route(key) == Composite(rsets, answer).Route(key)
    ensures multiset(SortByLevel(rsets)) == multiset(rsets)
    ensures forall level :: StableSort.WithRank(LevelOf, SortByLevel(rsets), level) == StableSort.WithRank(LevelOf, rsets, level)
    ensures forall i, j | 0 <= i < j < |SortByLevel(rsets)| :: SortByLevel(rsets)[i].level <= SortByLevel(rsets)[j].level
  {
    var level := if ParseOverviewKey(key).Some? then ParseOverviewKey(key).value.1 else 0;
    StableSort.SortBySorts(LevelOf, rsets, level);
    var sorted := SortByLevel(rsets);
    forall n ensures StableSort.WithRank(LevelOf, sorted, n) == StableSort.WithRank(LevelOf, rsets, n) {
      StableSort.SortBySorts(LevelOf, rsets, n);
    }
    forall i, j | 0 <= i < j < |sorted| ensures sorted[i].level <= sorted[j].level {
      assert LevelOf(sorted[i]) <= LevelOf(sorted[j]);
    }
  }

  // What a run delivers.

  /** An earlier operation closed the writer. */
  ghost predicate ClosedBefore(ops: seq<Op>, results: seq<Failure>, n: nat)
    requires n <= |ops| && n <= |results|
  {
    exists j :: 0 <= j < n && ops[j].Close? && results[j].None?
  }

  /** An earlier operation was an attempt to add under the same key. */
  ghost predicate TriedBefore(ops: seq<Op>, n: nat, key: string)
    requires n <= |ops|
  {
    exists j :: 0 <= j < n && ops[j].Add? && ops[j].key == key
  }

  /** The calls the first n operations should make to add assets: one for the first attempt at each routable key, until the writer is closed. */
  ghost function Deliveries(c: Composite, ops: seq<Op>, results: seq<Failure>, n: nat): seq<Call>
    requires n <= |ops| && n <= |results|
  {
    if n == 0 then []
    else
      var earlier := Deliveries(c, ops, results, n - 1);
      if ops[n - 1].Add? && !ClosedBefore(ops, results, n - 1) && !TriedBefore(ops, n - 1, ops[n - 1].key)
         && c.Route(ops[n - 1].key).Ok?
      then earlier + [AddTo(c.Route(ops[n - 1].key).value.0, c.Route(ops[n - 1].key).value.1, ops[n - 1].asset)]
      else earlier
  }

  /** The calls of a log that add assets. */
  function Adds(calls: seq<Call>): seq<Call> {
    if calls == [] then []
    else Adds(calls[..|calls| - 1]) + (if calls[|calls| - 1].AddTo? then [calls[|calls| - 1]] else [])
  }

  /** The log of a broadcast: the targets in order, all answered without failure except possibly the last one called. */
  ghost predicate Broadcasts(c: Composite, before: seq<Call>, make: Target -> Call, targets: seq<Target>, reply: Reply) {
    && before <= reply.calls && |reply.calls| <= |before| + |targets|
    && (targets != [] ==> |before| < |reply.calls|)
    && (forall i | |before| <= i < |reply.calls| :: reply.calls[i] == make(targets[i - |before|]))
    && (forall i | |before| <= i < |reply.calls| - 1 :: Answered(c, reply.calls, i))
    && (targets != [] ==> reply.failure == c.answer(reply.calls))
    && (reply.failure.None? <==>
        |reply.calls| == |before| + |targets| && (targets != [] ==> Answered(c, reply.calls, |reply.calls| - 1)))
  }

  /** The i-th call of a log was answered without failure. */
  ghost predicate Answered(c: Composite, calls: seq<Call>, i: nat)
    requires i < |calls|
  {
    c.answer(calls[..i + 1]).None?
  }

  lemma {:induction false} BroadcastLog(c: Composite, before: seq<Call>, make: Target -> Call, targets: seq<Target>)
    ensures Broadcasts(c, before, make, targets, c.Broadcast(before, make, targets))
    decreases |targets|
  {
    var reply := c.Broadcast(before, make, targets);
    if targets != [] {
      var first := before + [make(targets[0])];
      assert first[..|before| + 1] == first;
      if c.answer(first).None? {
        BroadcastLog(c, first, make, targets[1..]);
        BroadcastStep(c, before, make, targets, reply);
      }
    }
  }

  lemma BroadcastStep(c: Composite, before: seq<Call>, make: Target -> Call, targets: seq<Target>, reply: Reply)
    requires targets != [] && c.answer(before + [make(targets[0])]).None?
    requires Broadcasts(c, before + [make(targets[0])], make, targets[1..], reply)
    ensures Broadcasts(c, before, make, targets, reply)
  {
    var first := before + [make(targets[0])];
    assert reply.calls[..|before| + 1] == first;
    assert reply.calls[|before|] == first[|before|];
    assert Answered(c, reply.calls, |before|);
    assert |targets| == 1 ==> reply.calls == first;
    forall i | |before| <= i < |reply.calls| ensures reply.calls[i] == make(targets[i - |before|]) {
      if i > |before| {
        assert targets[1..][i - |first|] == targets[i - |before|];
      }
    }
  }

  predicate NotAdd(make: Target -> Call, t: Target) { !make(t).AddTo? }

  lemma {:induction false} AddsOfBroadcast(c: Composite, before: seq<Call>, make: Target -> Call, targets: seq<Target>)
    requires forall t :: NotAdd(make, t)
    ensures Adds(c.Broadcast(before, make, targets).calls) == Adds(before)
    decreases |targets|
  {
    if targets != [] {
      var first := c.Ask(before, make(targets[0]));
      assert NotAdd(make, targets[0]);
      assert (before + [make(targets[0])])[..|before|] == before;
      if first.failure.None? {
        AddsOfBroadcast(c, first.calls, make, targets[1..]);
      }
    }
  }

  /** The keys taken are those tried before. */
  ghost predicate KeysTried(s: State, ops: seq<Op>, n: nat)
    requires n <= |ops|
  {
    forall key :: key in s.keys <==> TriedBefore(ops, n, key)
  }

  /** The state after n operations, told from the operations and their results alone. */
  lemma {:induction false} RunTells(c: Composite, ops: seq<Op>, n: nat)
    requires n <= |ops|
    ensures var r := c.Run(ops, n);
            && (r.state.closed <==> ClosedBefore(ops, r.results, n))
            && Adds(r.state.calls) == Deliveries(c, ops, r.results, n)
            && (!r.state.closed ==> KeysTried(r.state, ops, n))
  {
    if n > 0 {
      RunTells(c, ops, n - 1);
      var before, r := c.Run(ops, n - 1), c.Run(ops, n);
      SameDeliveries(c, ops, before.results, r.results, n - 1);
      ClosedStep(ops, before.results, r.results, n);
      StepCloses(c, before.state, ops[n - 1]);
      StepKeys(c, before.state, ops, n);
      StepAdds(c, before.state, ops[n - 1]);
      assert !before.state.closed && ops[n - 1].Add? ==>
          (ops[n - 1].key in before.state.keys <==> TriedBefore(ops, n - 1, ops[n - 1].key));
    }
  }

  /** Only a close that succeeds closes, and nothing opens again. */
  lemma StepCloses(c: Composite, s: State, op: Op)
    ensures c.Step(s, op).0.closed <==> s.closed || (op.Close? && c.Step(s, op).1.None?)
  {
  }

  /** Only adding takes a key, and it takes it even when it fails. */
  lemma StepKeys(c: Composite, s: State, ops: seq<Op>, n: nat)
    requires 0 < n <= |ops| && (!s.closed ==> KeysTried(s, ops, n - 1))
    ensures !c.Step(s, ops[n - 1]).0.closed ==> KeysTried(c.Step(s, ops[n - 1]).0, ops, n)
  {
    var after := c.Step(s, ops[n - 1]).0;
    StepCloses(c, s, ops[n - 1]);
    if !after.closed {
      TriedStep(ops, n);
      assert after.keys == if ops[n - 1].Add? then s.keys + {ops[n - 1].key} else s.keys;
    }
  }

  lemma {:induction false} SameDeliveries(c: Composite, ops: seq<Op>, a: seq<Failure>, b: seq<Failure>, n: nat)
    requires n <= |a| && a <= b && n <= |ops|
    ensures Deliveries(c, ops, a, n) == Deliveries(c, ops, b, n)
  {
    if n > 0 {
      SameDeliveries(c, ops, a, b, n - 1);
      SameClosed(ops, a, b, n - 1);
    }
  }

  lemma SameClosed(ops: seq<Op>, a: seq<Failure>, b: seq<Failure>, n: nat)
    requires n <= |a| && a <= b && n <= |ops|
    ensures ClosedBefore(ops, a, n) <==> ClosedBefore(ops, b, n)
  {
  }

  lemma ClosedStep(ops: seq<Op>, a: seq<Failure>, b: seq<Failure>, n: nat)
    requires 0 < n <= |ops| && |a| == n - 1 && |b| == n && a <= b
    ensures ClosedBefore(ops, b, n - 1) <==> ClosedBefore(ops, a, n - 1)
    ensures ClosedBefore(ops, b, n) <==> ClosedBefore(ops, a, n - 1) || (ops[n - 1].Close? && b[n - 1].None?)
  {
  }

  lemma TriedStep(ops: seq<Op>, n: nat)
    requires 0 < n <= |ops|
    ensures forall key :: TriedBefore(ops, n, key)
              <==> TriedBefore(ops, n - 1, key) || (ops[n - 1].Add? && ops[n - 1].key == key)
  {
  }

  /** One operation adds at most the one call that delivers its asset. */
  lemma StepAdds(c: Composite, s: State, op: Op)
    ensures var after := c.Step(s, op).0;
            Adds(after.calls) == Adds(s.calls)
            + (if op.Add? && !s.closed && op.key !in s.keys && c.Route(op.key).Ok?
               then [AddTo(c.Route(op.key).value.0, c.Route(op.key).value.1, op.asset)] else [])
  {
    match op {
      case Add(key, asset) =>
        if !s.closed && key !in s.keys && c.Route(key).Ok? {
          var call := AddTo(c.Route(key).value.0, c.Route(key).value.1, asset);
          assert (s.calls + [call])[..|s.calls|] == s.calls;
        }
      case SetMetadata(m) => AddsOfBroadcast(c, s.calls, to => MetadataTo(to, m), c.All());
      case Close => AddsOfBroadcast(c, s.calls, to => CloseOf(to), c.All());
    }
  }

  /**
   Delivery, over every run: the inner writers receive exactly one call for the first attempt at
   each key that has a writer, in order, and none once the writer is closed; an attempt
   at a closed writer, at a key tried before, or at a level without a writer fails and reaches nobody.
   */
  lemma RunDelivers(c: Composite, ops: seq<Op>, n: nat)
    requires n < |ops|
    ensures var r := c.Run(ops, n + 1);
            && Adds(r.state.calls) == Deliveries(c, ops, r.results, n + 1)
            && (ops[n].Add? ==>
                  if ClosedBefore(ops, r.results, n) then r.results[n] == Some(Closed)
                  else if TriedBefore(ops, n, ops[n].key) then r.results[n] == Some(DuplicateKey(ops[n].key))
                  else if c.Route(ops[n].key).Err? then r.results[n] == Some(c.Route(ops[n].key).error)
                  else && r.state.calls != [] && r.state.calls[..|r.state.calls| - 1] == c.Run(ops, n).state.calls
                       && r.state.calls[|r.state.calls| - 1]
                          == AddTo(c.Route(ops[n].key).value.0, c.Route(ops[n].key).value.1, ops[n].asset)
                       && r.results[n] == c.answer(r.state.calls))
  {
    RunTells(c, ops, n);
    RunTells(c, ops, n + 1);
    ClosedStep(ops, c.Run(ops, n).results, c.Run(ops, n + 1).results, n + 1);
  }

  /** A level without a writer is refused once; the key stays taken, so the next attempt reports a duplicate. */
  lemma RejectedKeyStays(c: Composite, s: State, key: string, a: Asset, b: Asset)
    requires !s.closed && key !in s.keys && c.Route(key).Err?
    ensures var (after, failure) := c.Step(s, Add(key, a));
            && failure == Some(c.Route(key).error) && after.calls == s.calls
            && c.Step(after, Add(key, b)) == (after, Some(DuplicateKey(key)))
  {
    var recorded := s.(keys := s.keys + {key});
    assert c.Step(s, Add(key, a)) == (recorded, Some(c.Route(key).error));
  }

  // Reaching every writer.

  /**
   From `before` on, the log holds one call to the base writer and one to each overview writer in turn,
   up to the first that fails, whose failure is reported; nothing is reported only if none fails.
   */
  ghost predicate Forwarded(c: Composite, before: seq<Call>, make: Target -> Call, after: seq<Call>, failure: Failure) {
    && before <= after && |before| < |after| <= |before| + 1 + |c.rsets|
    && after[|before|] == make(Base)
    && (forall i | 0 <= i < |after| - |before| - 1 :: after[|before| + 1 + i] == make(RSet(c.rsets[i])))
    && (forall i | |before| <= i < |after| - 1 :: Answered(c, after, i))
    && failure == c.answer(after)
    && (failure.None? ==> |after| == |before| + 1 + |c.rsets|)
  }

  /** A call to each of all the writers reaches the base writer and then every overview writer. */
  lemma BroadcastForwards(c: Composite, before: seq<Call>, make: Target -> Call)
    ensures var reply := c.Broadcast(before, make, c.All()); Forwarded(c, before, make, reply.calls, reply.failure)
  {
    BroadcastLog(c, before, make, c.All());
    var after := c.Broadcast(before, make, c.All()).calls;
    assert |c.All()| == 1 + |c.rsets| && c.All()[0] == Base;
    forall i | 0 <= i < |after| - |before| - 1 ensures after[|before| + 1 + i] == make(RSet(c.rsets[i])) {
      assert c.All()[1 + i] == RSet(c.rsets[i]);
    }
  }

  lemma ForwardedToAll(c: Composite, before: seq<Call>, make: Target -> Call, after: seq<Call>)
    requires Forwarded(c, before, make, after, None)
    ensures forall i | |before| <= i < |after| :: Answered(c, after, i)
  {
    assert after[..|after|] == after;
  }

  // Closing.

  /** Somewhere in the log every writer was closed in order, the base first, and none failed. */
  ghost predicate AllClosed(c: Composite, calls: seq<Call>) {
    exists p: nat :: AllClosedAt(c, calls, p)
  }

  ghost predicate AllClosedAt(c: Composite, calls: seq<Call>, p: nat) {
    && p + 1 + |c.rsets| <= |calls|
    && calls[p] == CloseOf(Base) && Answered(c, calls, p)
    && forall i | 0 <= i < |c.rsets| :: calls[p + 1 + i] == CloseOf(RSet(c.rsets[i])) && Answered(c, calls, p + 1 + i)
  }

  /**
   Closing reaches the base writer and then every overview writer, up to the first that fails; it
   closes the composite exactly when all of them answered without failure.
   */
  lemma CloseInOrder(c: Composite, s: State)
    requires !s.closed
    ensures var (after, failure) := c.Step(s, Close);
            && Forwarded(c, s.calls, to => CloseOf(to), after.calls, failure)
            && (after.closed <==> failure.None?)
            && (after.closed ==> AllClosedAt(c, after.calls, |s.calls|) && |after.calls| == |s.calls| + 1 + |c.rsets|)
            && after.keys == s.keys && after.metadata == s.metadata
  {
    BroadcastForwards(c, s.calls, to => CloseOf(to));
    var (after, failure) := c.Step(s, Close);
    if failure.None? {
      ForwardedToAll(c, s.calls, to => CloseOf(to), after.calls);
    }
  }

  /** Logs only grow. */
  lemma StepExtends(c: Composite, s: State, op: Op)
    ensures s.calls <= c.Step(s, op).0.calls
  {
    match op {
      case Add(key, asset) =>
      case SetMetadata(m) => BroadcastLog(c, s.calls, to => MetadataTo(to, m), c.All());
      case Close => BroadcastLog(c, s.calls, to => CloseOf(to), c.All());
    }
  }

  lemma AllClosedStays(c: Composite, calls: seq<Call>, longer: seq<Call>)
    requires calls <= longer && AllClosed(c, calls)
    ensures AllClosed(c, longer)
  {
    var p: nat :| AllClosedAt(c, calls, p);
    AnsweredStays(c, calls, longer, p);
    forall i | 0 <= i < |c.rsets|
      ensures longer[p + 1 + i] == CloseOf(RSet(c.rsets[i])) && Answered(c, longer, p + 1 + i)
    {
      AnsweredStays(c, calls, longer, p + 1 + i);
    }
    assert AllClosedAt(c, longer, p);
  }

  lemma AnsweredStays(c: Composite, calls: seq<Call>, longer: seq<Call>, i: nat)
    requires calls <= longer && i < |calls|
    ensures longer[i] == calls[i] && (Answered(c, longer, i) <==> Answered(c, calls, i))
  {
    assert longer[..i + 1] == calls[..i + 1];
  }

  /** Over every run: the composite counts as closed only once every writer was closed without failure, in order. */
  lemma {:induction false} ClosedMeansAllClosed(c: Composite, ops: seq<Op>, n: nat)
    requires n <= |ops|
    ensures c.Run(ops, n).state.closed ==> AllClosed(c, c.Run(ops, n).state.calls)
  {
    if n > 0 {
      ClosedMeansAllClosed(c, ops, n - 1);
      var s, op := c.Run(ops, n - 1).state, ops[n - 1];
      StepExtends(c, s, op);
      if s.closed {
        AllClosedStays(c, s.calls, c.Step(s, op).0.calls);
      } else if op.Close? {
        CloseInOrder(c, s);
      }
    }
  }

  /** A closed composite ignores closing and refuses assets, but still passes metadata on to closed writers. */
  lemma AfterClose(c: Composite, s: State, op: Op)
    requires s.closed
    ensures op.Add? ==> c.Step(s, op) == (s, Some(Closed))
    ensures op.Close? ==> c.Step(s, op) == (s, None)
    ensures op.SetMetadata? ==> Forwarded(c, s.calls, to => MetadataTo(to, op.metadata), c.Step(s, op).0.calls, c.Step(s, op).1)
    ensures c.Step(s, op).0.closed
  {
    if op.SetMetadata? {
      BroadcastForwards(c, s.calls, to => MetadataTo(to, op.metadata));
    }
  }

  /** Metadata reaches the base writer and then every overview writer, up to the first that fails, and is recorded exactly when none does. */
  lemma MetadataInOrder(c: Composite, s: State, m: nat)
    ensures var (after, failure) := c.Step(s, SetMetadata(m));
            && Forwarded(c, s.calls, to => MetadataTo(to, m), after.calls, failure)
            && after.metadata == (if failure.None? then Some(m) else s.metadata)
            && after.keys == s.keys && after.closed == s.closed
  {
    BroadcastForwards(c, s.calls, to => MetadataTo(to, m));
  }
}
