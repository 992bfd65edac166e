/**
 What the cache spares: an answered range is never fetched again, and a call whose policy planned all it
 needs never fetches more than its plan.
 */
module FetchOnce {
  import opened Wrappers
  import opened Bsq
  import opened RangeCache
  import opened StreamFetcher
  import opened FetchProgress

  /** Position pos is part of one of the requests. */
  ghost predicate Requested(reqs: seq<Request>, pos: nat) {
    exists k | 0 <= k < |reqs| :: AsksFor(reqs[k], pos)
  }

  predicate AsksFor(r: Request, pos: nat) { r.offset <= pos < r.offset + r.len }

  lemma StaysCached(source: seq<byte>, run: seq<System>, i: nat, offset: nat, len: nat)
    requires IsRun(source, run) && i + 1 < |run| && AllCached(run[i].cache, offset, len)
    ensures AllCached(run[i + 1].cache, offset, len)
  {
    var later := run[i + 1].cache;
    forall pos: nat | offset <= pos < offset + len ensures Lookup(later, pos).Some? {
      CacheGrows(source, run, i, i + 1, pos);
    }
  }

  // ----- answered ranges -----

  /** The ranges answered so far are cached. */
  ghost predicate OutCached(cache: seq<CachedRange>, reqs: seq<Request>, out: seq<seq<byte>>) {
    |out| <= |reqs| && forall k | 0 <= k < |out| :: AllCached(cache, reqs[k].offset, reqs[k].len)
  }

  ghost predicate PhaseCached(cache: seq<CachedRange>, p: Phase) {
    match p
    case Serving(reqs, out) => OutCached(cache, reqs, out)
    case Healing(reqs, out) => OutCached(cache, reqs, out)
    case Healed(reqs, out, _) => OutCached(cache, reqs, out)
    case Answered(reqs, out) => OutCached(cache, reqs, out)
    case _ => true
  }

  lemma InsertCaches(before: seq<CachedRange>, start: nat, data: seq<byte>, after: seq<CachedRange>)
    requires Inserted(before, start, data, after)
    ensures AllCached(after, start, |data|)
  {
    forall pos: nat | start <= pos < start + |data| ensures Lookup(after, pos).Some? {
      assert Lookup(after, pos) == After(before, start, data, pos);
    }
  }

  /** A step of the call itself keeps its answered ranges cached, the new one included. */
  lemma StepCaches(source: seq<byte>, cache: seq<CachedRange>, p: Phase, next: seq<CachedRange>, q: Phase, plan: seq<Span>)
    requires CallStep(source, cache, p, next, q, plan) && PhaseOk(source, p) && PhaseCached(next, p)
    ensures PhaseCached(next, q)
  {
    match p
    case Healed(reqs, out, healed) => InsertCaches(cache, reqs[|out|].offset, healed, next);
    case _ =>
  }

  lemma PhaseStaysCached(source: seq<byte>, run: seq<System>, i: nat, p: Phase)
    requires IsRun(source, run) && i + 1 < |run| && PhaseCached(run[i].cache, p)
    ensures PhaseCached(run[i + 1].cache, p)
  {
    if p.Serving? || p.Healing? || p.Healed? || p.Answered? {
      forall k | 0 <= k < |p.out| ensures AllCached(run[i + 1].cache, p.reqs[k].offset, p.reqs[k].len) {
        StaysCached(source, run, i, p.reqs[k].offset, p.reqs[k].len);
      }
    }
  }

  lemma {:induction false} RunCaches(source: seq<byte>, run: seq<System>, i: nat, id: nat)
    requires IsRun(source, run) && i < |run| && id in run[i].calls
    ensures PhaseCached(run[i].cache, run[i].calls[id])
  {
    if i > 0 {
      var s, t := run[i - 1], run[i];
      assert NextAt(source, run, i - 1);
      RunKeeps(source, run, i - 1);
      if id in s.calls {
        RunCaches(source, run, i - 1, id);
        PhaseStaysCached(source, run, i - 1, s.calls[id]);
        if t.calls[id] != s.calls[id] {
          var plan :| Steps(source, s, t, id, plan, t.calls[id]);
          StepCaches(source, s.cache, s.calls[id], t.cache, t.calls[id], plan);
        }
      }
    }
  }

  /** Once a call is answered, each of its ranges is served from the cache, with the same bytes, ever after. */
  lemma AnsweredIsServed(source: seq<byte>, run: seq<System>, i: nat, j: nat, id: nat, k: nat)
    requires IsRun(source, run) && i <= j < |run| && id in run[i].calls
    requires run[i].calls[id].Answered? && k < |run[i].calls[id].reqs|
    ensures k < |run[i].calls[id].out|
    ensures var r := run[i].calls[id].reqs[k]; Served(run[j].cache, r.offset, r.len) == Some(run[i].calls[id].out[k])
  {
    var r := run[i].calls[id].reqs[k];
    AnswersAreExact(source, run, i, id);
    RunCaches(source, run, i, id);
    RunKeeps(source, run, j);
    forall pos: nat | r.offset <= pos < r.offset + r.len ensures Lookup(run[j].cache, pos).Some? {
      CacheGrows(source, run, i, j, pos);
    }
    ServedIsExact(run[j].cache, source, r.offset, r.len);
  }

  // ----- plans that cover -----

  /** Every byte requested is cached or planned. */
  ghost predicate Covered(cache: seq<CachedRange>, reqs: seq<Request>, plan: seq<Span>) {
    forall pos: nat | Requested(reqs, pos) :: Lookup(cache, pos).Some? || Planned(plan, pos)
  }

  /** Nothing the call needs is neither cached nor on its way. */
  ghost predicate Provided(cache: seq<CachedRange>, p: Phase) {
    match p
    case Called(_, _) => false
    case Fetching(reqs, todo) => Covered(cache, reqs, todo)
    case Filling(reqs, todo, _) => Covered(cache, reqs, todo)
    case Serving(reqs, _) => Covered(cache, reqs, [])
    case Healing(_, _) => false
    case Healed(_, _, _) => false
    case Answered(_, _) => true
    case Failed(_, _) => true
  }

  lemma {:induction false} FetchedWherePlanned(source: seq<byte>, todo: seq<Span>, data: seq<seq<byte>>, pos: nat)
    requires ReadExactly(source, todo, data) && Planned(todo, pos)
    ensures Fetched(todo, data, pos).Some?
  {
    if !(todo[0].start <= pos < todo[0].start + |data[0]|) {
      var k :| 0 <= k < |todo| && todo[k].Has(pos);
      assert todo[0].Has(pos) <==> todo[0].start <= pos < todo[0].start + |data[0]|;
      assert todo[1..][k - 1].Has(pos);
      assert ReadExactly(source, todo[1..], data[1..]);
      FetchedWherePlanned(source, todo[1..], data[1..], pos);
    }
  }

  /** A planned byte that is not cached is in a span that is fetched. */
  lemma PlannedIsFetched(cache: seq<CachedRange>, plan: seq<Span>, pos: nat)
    requires Planned(plan, pos) && Lookup(cache, pos).None?
    ensures Planned(Uncached(cache, Coalesced(plan)), pos)
  {
    CoalescedPlan(plan, pos);
    var s := SpanWith(Coalesced(plan), pos);
    UncachedHolds(cache, Coalesced(plan), s);
    HeldIsPlanned(Uncached(cache, Coalesced(plan)), s, pos);
  }

  lemma SpanWith(spans: seq<Span>, pos: nat) returns (s: Span)
    requires Planned(spans, pos)
    ensures s in spans && s.Has(pos)
  {
    var k :| 0 <= k < |spans| && spans[k].Has(pos);
    s := spans[k];
  }

  lemma HeldIsPlanned(spans: seq<Span>, s: Span, pos: nat)
    requires s in spans && s.Has(pos)
    ensures Planned(spans, pos)
  {
    var j :| 0 <= j < |spans| && spans[j] == s;
  }

  lemma PlanProvides(cache: seq<CachedRange>, reqs: seq<Request>, plan: seq<Span>)
    requires Covered(cache, reqs, plan)
    ensures Covered(cache, reqs, Uncached(cache, Coalesced(plan)))
  {
    forall pos: nat | Requested(reqs, pos)
      ensures Lookup(cache, pos).Some? || Planned(Uncached(cache, Coalesced(plan)), pos)
    {
      if Lookup(cache, pos).None? {
        PlannedIsFetched(cache, plan, pos);
      }
    }
  }

  lemma FillProvides(source: seq<byte>, cache: seq<CachedRange>, reqs: seq<Request>, todo: seq<Span>, data: seq<seq<byte>>, next: seq<CachedRange>)
    requires Covered(cache, reqs, todo) && ReadExactly(source, todo, data) && FilledWith(cache, todo, data, next)
    ensures Covered(next, reqs, [])
  {
    forall pos: nat | Requested(reqs, pos) ensures Lookup(next, pos).Some? {
      if Lookup(cache, pos).None? {
        FetchedWherePlanned(source, todo, data, pos);
      }
      assert Lookup(next, pos) == if Lookup(cache, pos).Some? then Lookup(cache, pos) else Fetched(todo, data, pos);
    }
  }

  lemma ProvidedIsServed(cache: seq<CachedRange>, reqs: seq<Request>, k: nat)
    requires Covered(cache, reqs, []) && k < |reqs|
    ensures AllCached(cache, reqs[k].offset, reqs[k].len)
  {
    forall pos: nat | reqs[k].offset <= pos < reqs[k].offset + reqs[k].len ensures Lookup(cache, pos).Some? {
      assert AsksFor(reqs[k], pos);
    }
  }

  lemma StepProvides(source: seq<byte>, cache: seq<CachedRange>, p: Phase, next: seq<CachedRange>, q: Phase, plan: seq<Span>)
    requires CallStep(source, cache, p, next, q, plan) && PhaseOk(source, p)
    requires if p.Called? then Covered(cache, p.reqs, plan) else Provided(cache, p)
    ensures Provided(next, q)
  {
    match p
    case Called(reqs, _) => PlanProvides(cache, reqs, plan);
    case Filling(reqs, todo, data) => FillProvides(source, cache, reqs, todo, data, next);
    case Serving(reqs, out) =>
      if |out| < |reqs| {
        ProvidedIsServed(cache, reqs, |out|);
      }
    case _ =>
  }

  lemma StaysProvided(source: seq<byte>, run: seq<System>, i: nat, p: Phase)
    requires IsRun(source, run) && i + 1 < |run| && Provided(run[i].cache, p)
    ensures Provided(run[i + 1].cache, p)
  {
    var now, later := run[i].cache, run[i + 1].cache;
    forall pos: nat | Lookup(now, pos).Some? ensures Lookup(later, pos).Some? {
      CacheGrows(source, run, i, i + 1, pos);
    }
  }

  /** The call consults its policy, which plans every byte requested that is not cached. */
  ghost predicate PlansAll(source: seq<byte>, s: System, t: System, id: nat, plan: seq<Span>) {
    && id in s.calls && s.calls[id].Called? && id in t.calls && Steps(source, s, t, id, plan, t.calls[id])
    && Covered(s.cache, s.calls[id].reqs, plan)
  }

  ghost predicate ProvidedAt(run: seq<System>, i: nat, id: nat)
    requires i < |run|
  {
    id in run[i].calls && Provided(run[i].cache, run[i].calls[id])
  }

  lemma FirstProvides(source: seq<byte>, run: seq<System>, i: nat, id: nat, plan: seq<Span>)
    requires IsRun(source, run) && i + 1 < |run| && PlansAll(source, run[i], run[i + 1], id, plan)
    ensures ProvidedAt(run, i + 1, id)
  {
    var s, t := run[i], run[i + 1];
    RunKeeps(source, run, i);
    StepProvides(source, s.cache, s.calls[id], t.cache, t.calls[id], plan);
  }

  lemma NextProvides(source: seq<byte>, run: seq<System>, i: nat, id: nat)
    requires IsRun(source, run) && i + 1 < |run| && ProvidedAt(run, i, id)
    ensures ProvidedAt(run, i + 1, id)
  {
    var s, t := run[i], run[i + 1];
    assert NextAt(source, run, i);
    RunKeeps(source, run, i);
    CallStays(source, s, t, id);
    if t.calls[id] == s.calls[id] {
      StaysProvided(source, run, i, s.calls[id]);
    } else {
      var plan :| Steps(source, s, t, id, plan, t.calls[id]);
      StepProvides(source, s.cache, s.calls[id], t.cache, t.calls[id], plan);
    }
  }

  /** A step leaves a call as it is, or is a step of this call. */
  lemma CallStays(source: seq<byte>, s: System, t: System, id: nat)
    requires Next(source, s, t) && id in s.calls
    ensures id in t.calls
    ensures t.calls[id] == s.calls[id] || exists plan :: Steps(source, s, t, id, plan, t.calls[id])
  {}

  lemma {:induction false} RunProvides(source: seq<byte>, run: seq<System>, i: nat, j: nat, id: nat)
    requires IsRun(source, run) && i <= j < |run| && ProvidedAt(run, i, id)
    ensures ProvidedAt(run, j, id)
  {
    if i < j {
      RunProvides(source, run, i, j - 1, id);
      NextProvides(source, run, j - 1, id);
    }
  }

  /**
   A call whose policy planned every byte that it asks for and that was not cached takes what it
   needs from its one fetch: whatever the other calls do, it never fetches a range by itself.
   */
  lemma CoveredNeverHeals(source: seq<byte>, run: seq<System>, i: nat, j: nat, id: nat, plan: seq<Span>)
    requires IsRun(source, run) && i < j < |run| && PlansAll(source, run[i], run[i + 1], id, plan)
    ensures id in run[j].calls && !run[j].calls[id].Healing? && !run[j].calls[id].Healed?
  {
    FirstProvides(source, run, i, id, plan);
    RunProvides(source, run, i + 1, j, id);
  }

  lemma {:induction false} HeaderAwareCovers(headerLen: nat, cache: seq<CachedRange>, reqs: seq<Request>, source: seq<byte>, pos: nat)
    requires InBounds(source, reqs) && Requested(reqs, pos)
    ensures Lookup(cache, pos).Some? || Planned(HeaderAwareCall(headerLen, cache, reqs, |source|), pos)
  {
    var front, r := reqs[..|reqs| - 1], reqs[|reqs| - 1];
    var k :| 0 <= k < |reqs| && AsksFor(reqs[k], pos);
    if Lookup(cache, pos).None? {
      if k < |front| {
        assert AsksFor(front[k], pos);
        HeaderAwareCovers(headerLen, cache, front, source, pos);
      } else {
        HeaderAwareCoversOne(headerLen, cache, r, source, pos);
      }
      PlannedInBoth(HeaderAwareCall(headerLen, cache, front, |source|), HeaderAwareOne(headerLen, cache, r, |source|), pos);
    }
  }

  lemma HeaderAwareCoversOne(headerLen: nat, cache: seq<CachedRange>, r: Request, source: seq<byte>, pos: nat)
    requires r.offset + r.len <= |source| && AsksFor(r, pos) && Lookup(cache, pos).None?
    ensures Planned(HeaderAwareOne(headerLen, cache, r, |source|), pos)
  {
    HeaderAwarePlanCovers(headerLen, Span(r.offset, r.offset + r.len), source, pos);
  }

  lemma PlannedInBoth(a: seq<Span>, b: seq<Span>, pos: nat)
    requires Planned(a, pos) || Planned(b, pos)
    ensures Planned(a + b, pos)
  {
    if Planned(a, pos) {
      var k :| 0 <= k < |a| && a[k].Has(pos);
      assert (a + b)[k].Has(pos);
    } else {
      var k :| 0 <= k < |b| && b[k].Has(pos);
      assert (a + b)[|a| + k].Has(pos);
    }
  }

  /** The default policy's plan covers every call in bounds, so none of them fetches twice. */
  lemma DefaultPolicyCovers(headerLen: nat, cache: seq<CachedRange>, reqs: seq<Request>, source: seq<byte>)
    requires InBounds(source, reqs)
    ensures Covered(cache, reqs, HeaderAwareCall(headerLen, cache, reqs, |source|))
  {
    forall pos: nat | Requested(reqs, pos)
      ensures Lookup(cache, pos).Some? || Planned(HeaderAwareCall(headerLen, cache, reqs, |source|), pos)
    {
      HeaderAwareCovers(headerLen, cache, reqs, source, pos);
    }
  }
}
