/**
 When a call to the stream fetcher can be answered at all. The policy's ranges are fetched as they
 are planned, so a plan that runs past the end of the source asks the reader for bytes that do not exist.
 */
module FetchProgress {
  import opened Wrappers
  import opened Bsq
  import opened RangeCache
  import opened StreamFetcher

  // ----- what can still happen -----

  ghost predicate IsPath(source: seq<byte>, path: seq<System>) {
    path != [] && forall i | 0 <= i < |path| - 1 :: Next(source, path[i], path[i + 1])
  }

  ghost predicate LeadsToAnswer(source: seq<byte>, path: seq<System>, s: System, id: nat) {
    && IsPath(source, path) && path[0] == s
    && id in path[|path| - 1].calls && path[|path| - 1].calls[id].Answered?
  }

  /** Some continuation from s answers the call. */
  ghost predicate CanBeAnswered(source: seq<byte>, s: System, id: nat) {
    exists path :: LeadsToAnswer(source, path, s, id)
  }

  /** The call takes a step. */
  ghost function Moved(s: System, id: nat, next: seq<CachedRange>, q: Phase): System {
    System(next, s.calls[id := q])
  }

  lemma MoveThenAnswer(source: seq<byte>, s: System, id: nat, next: seq<CachedRange>, q: Phase, plan: seq<Span>)
    requires id in s.calls && CallStep(source, s.cache, s.calls[id], next, q, plan)
    requires CanBeAnswered(source, Moved(s, id, next, q), id)
    ensures CanBeAnswered(source, s, id)
  {
    var t := Moved(s, id, next, q);
    var path :| LeadsToAnswer(source, path, t, id);
    assert Steps(source, s, t, id, plan, q);
    var longer := [s] + path;
    forall i | 0 <= i < |longer| - 1 ensures Next(source, longer[i], longer[i + 1]) {
      assert i > 0 ==> longer[i] == path[i - 1];
    }
    assert LeadsToAnswer(source, longer, s, id);
  }

  lemma AnsweredAlready(source: seq<byte>, s: System, id: nat)
    requires id in s.calls && s.calls[id].Answered?
    ensures CanBeAnswered(source, s, id)
  {
    assert LeadsToAnswer(source, [s], s, id);
  }

  // ----- the cache can always take what was fetched -----

  lemma {:induction false} AbsorbRest(seen: seq<CachedRange>, rest: seq<CachedRange>, start: nat, data: seq<byte>,
                                      merged: seq<CachedRange>, next: CachedRange) returns (after: seq<CachedRange>)
    requires Separated(seen + rest) && Absorbed(seen, rest, start, data, merged, next)
    ensures Separated(after) && Inserted(seen + rest, start, data, after)
    decreases |rest|
  {
    if rest == [] {
      SortedIn(seen, start, data, merged, next);
      assert seen + rest == seen;
      after := RangeCache.SortByStart(merged + [next]);
    } else {
      var x, others := rest[0], rest[1..];
      NextRange(seen, rest);
      assert rest == [x] + others && seen + rest == seen + [x] + others;
      if RangesTouch(x, next) {
        Absorb(seen, x, others, start, data, merged, next);
        after := AbsorbRest(seen + [x], others, start, data, merged, Merge(x, next));
      } else {
        KeepApart(seen, x, others, start, data, merged, next);
        after := AbsorbRest(seen + [x], others, start, data, merged + [x], next);
      }
    }
  }

  /** The first range of the rest lies between what was seen and what follows. */
  lemma NextRange(seen: seq<CachedRange>, rest: seq<CachedRange>)
    requires Separated(seen + rest) && rest != []
    ensures AllBefore(seen, rest[0].start) && rest[0].data != []
    ensures forall i | 0 <= i < |rest[1..]| :: rest[0].End() < rest[1..][i].start
  {
    var all, n := seen + rest, |seen|;
    assert all[n] == rest[0];
    forall i | 0 <= i < n ensures seen[i].End() < rest[0].start {
      assert all[i] == seen[i];
    }
    forall i | 0 <= i < |rest[1..]| ensures rest[0].End() < rest[1..][i].start {
      assert all[n + 1 + i] == rest[1..][i];
    }
  }

  lemma InsertPossible(cache: seq<CachedRange>, start: nat, data: seq<byte>) returns (after: seq<CachedRange>)
    requires Separated(cache)
    ensures Separated(after) && Inserted(cache, start, data, after)
  {
    if data == [] {
      after := cache;
    } else {
      assert [] + cache == cache;
      after := AbsorbRest([], cache, start, data, [], CachedRange(start, data));
    }
  }

  lemma {:induction false} FillPossible(cache: seq<CachedRange>, todo: seq<Span>, data: seq<seq<byte>>, k: nat) returns (after: seq<CachedRange>)
    requires Separated(cache) && |data| == |todo| && k <= |todo|
    ensures Separated(after) && FilledWith(cache, todo[..k], data[..k], after)
  {
    if k == 0 {
      after := cache;
    } else {
      var before := FillPossible(cache, todo, data, k - 1);
      after := InsertPossible(before, todo[k - 1].start, data[k - 1]);
      forall pos: nat
        ensures Lookup(after, pos) == if Lookup(cache, pos).Some? then Lookup(cache, pos) else Fetched(todo[..k], data[..k], pos)
      {
        FetchedSnoc(todo, data, k - 1, pos);
        assert Lookup(after, pos) == After(before, todo[k - 1].start, data[k - 1], pos);
      }
    }
  }

  // ----- from where a call can be answered -----

  /** Once it is serving, a call in bounds can be answered: what the cache lacks can be fetched by itself. */
  lemma {:induction false} ServingCanAnswer(source: seq<byte>, s: System, id: nat)
    requires Separated(s.cache) && id in s.calls && s.calls[id].Serving?
    requires InBounds(source, s.calls[id].reqs) && |s.calls[id].out| <= |s.calls[id].reqs|
    ensures CanBeAnswered(source, s, id)
    decreases |s.calls[id].reqs| - |s.calls[id].out|
  {
    var reqs, out := s.calls[id].reqs, s.calls[id].out;
    if |reqs| == |out| {
      AnsweredAlready(source, Moved(s, id, s.cache, Answered(reqs, out)), id);
      MoveThenAnswer(source, s, id, s.cache, Answered(reqs, out), []);
    } else {
      var r := reqs[|out|];
      var bytes := Served(s.cache, r.offset, r.len);
      if bytes.Some? {
        var q := Serving(reqs, out + [bytes.value]);
        ServingCanAnswer(source, Moved(s, id, s.cache, q), id);
        MoveThenAnswer(source, s, id, s.cache, q, []);
      } else {
        var healed := source[r.offset..r.offset + r.len];
        var next := InsertPossible(s.cache, r.offset, healed);
        var s1 := Moved(s, id, s.cache, Healing(reqs, out));
        var s2 := Moved(s1, id, s.cache, Healed(reqs, out, healed));
        ServingCanAnswer(source, Moved(s2, id, next, Serving(reqs, out + [healed])), id);
        MoveThenAnswer(source, s2, id, next, Serving(reqs, out + [healed]), []);
        MoveThenAnswer(source, s1, id, s.cache, Healed(reqs, out, healed), []);
        MoveThenAnswer(source, s, id, s.cache, Healing(reqs, out), []);
      }
    }
  }

  predicate SpansInside(source: seq<byte>, spans: seq<Span>) {
    forall k | 0 <= k < |spans| :: spans[k].start <= spans[k].end <= |source|
  }

  /** A call that waits for spans inside the source can be answered. */
  lemma FetchingCanAnswer(source: seq<byte>, s: System, id: nat)
    requires Separated(s.cache) && id in s.calls && s.calls[id].Fetching?
    requires InBounds(source, s.calls[id].reqs) && SpansInside(source, s.calls[id].todo)
    ensures CanBeAnswered(source, s, id)
  {
    var reqs, todo := s.calls[id].reqs, s.calls[id].todo;
    var data := seq(|todo|, k requires 0 <= k < |todo| => source[todo[k].start..todo[k].end]);
    var next := FillPossible(s.cache, todo, data, |todo|);
    assert todo[..|todo|] == todo && data[..|data|] == data;
    var s1 := Moved(s, id, s.cache, Filling(reqs, todo, data));
    ServingCanAnswer(source, Moved(s1, id, next, Serving(reqs, [])), id);
    MoveThenAnswer(source, s1, id, next, Serving(reqs, []), []);
    MoveThenAnswer(source, s, id, s.cache, Filling(reqs, todo, data), []);
  }

  /** The call still waits for the spans, or has failed. */
  predicate Stuck(s: System, id: nat, reqs: seq<Request>, todo: seq<Span>) {
    id in s.calls && (s.calls[id] == Fetching(reqs, todo) || s.calls[id] == Failed(reqs, ReaderFailed))
  }

  /** A call that waits for a span past the end waits until it fails, whatever the other calls do. */
  lemma {:induction false} FetchingStuck(source: seq<byte>, path: seq<System>, id: nat, reqs: seq<Request>, todo: seq<Span>, i: nat)
    requires IsPath(source, path) && i < |path| && !SpansInside(source, todo)
    requires id in path[0].calls && path[0].calls[id] == Fetching(reqs, todo)
    ensures Stuck(path[i], id, reqs, todo)
  {
    if i > 0 {
      FetchingStuck(source, path, id, reqs, todo, i - 1);
      assert Next(source, path[i - 1], path[i]);
    }
  }

  // ----- the condition on the plan -----

  /** Every span of the plan that asks for anything ends inside the source. */
  predicate PlanInside(source: seq<byte>, plan: seq<Span>) {
    forall k | 0 <= k < |plan| && plan[k].start < plan[k].end :: plan[k].end <= |source|
  }

  lemma {:induction false} UncachedHolds(cache: seq<CachedRange>, spans: seq<Span>, s: Span)
    ensures s in Uncached(cache, spans)
            <==> s in spans && !(s.start <= s.end && AllCached(cache, s.start, s.end - s.start))
  {
    if spans != [] {
      var front, last := spans[..|spans| - 1], spans[|spans| - 1];
      UncachedHolds(cache, front, s);
      assert spans == front + [last];
    }
  }

  /** What is fetched lies inside the source exactly when the plan does: nothing past the end is ever cached, and coalescing adds nothing. */
  lemma UncachedInside(source: seq<byte>, cache: seq<CachedRange>, plan: seq<Span>)
    requires Coherent(cache, source)
    ensures SpansInside(source, Uncached(cache, Coalesced(plan))) <==> PlanInside(source, plan)
  {
    var spans := Coalesced(plan);
    var todo := Uncached(cache, spans);
    if PlanInside(source, plan) {
      forall k | 0 <= k < |todo| ensures todo[k].start <= todo[k].end <= |source| {
        UncachedHolds(cache, spans, todo[k]);
        CoalescedInside(source, plan, todo[k]);
      }
    } else {
      var k :| 0 <= k < |plan| && plan[k].start < plan[k].end && plan[k].end > |source|;
      OutsideUncached(source, cache, plan, plan[k].end - 1);
    }
  }

  lemma CoalescedInside(source: seq<byte>, plan: seq<Span>, s: Span)
    requires PlanInside(source, plan) && s in Coalesced(plan)
    ensures s.start < s.end <= |source|
  {
    CoalescedPlan(plan, s.start);
    CoalescedPlan(plan, s.end - 1);
    var j :| 0 <= j < |Coalesced(plan)| && Coalesced(plan)[j] == s;
    assert Coalesced(plan)[j].Has(s.end - 1);
    var k :| 0 <= k < |plan| && plan[k].Has(s.end - 1);
  }

  lemma OutsideUncached(source: seq<byte>, cache: seq<CachedRange>, plan: seq<Span>, pos: nat)
    requires Coherent(cache, source) && Planned(plan, pos) && pos >= |source|
    ensures !SpansInside(source, Uncached(cache, Coalesced(plan)))
  {
    CoalescedPlan(plan, pos);
    var j :| 0 <= j < |Coalesced(plan)| && Coalesced(plan)[j].Has(pos);
    var s := Coalesced(plan)[j];
    assert Lookup(cache, pos).None?;
    UncachedHolds(cache, Coalesced(plan), s);
  }

  /** The cache holds the one range that is asked for. */
  ghost predicate ServedAtOnce(cache: seq<CachedRange>, reqs: seq<Request>, single: bool) {
    single && |reqs| == 1 && Served(cache, reqs[0].offset, reqs[0].len).Some?
  }

  /**
   A call in bounds whose policy answers with some plan can still be answered if and only if it is
   served from the cache at once, or every span that is to be fetched ends inside the source; and that
   is so exactly when the plan's own spans do. Otherwise it waits until the reader fails.
   */
  lemma AnswerableExactly(source: seq<byte>, s: System, t: System, id: nat, reqs: seq<Request>, single: bool, plan: seq<Span>)
    requires SystemOk(source, s) && InBounds(source, reqs)
    requires id in s.calls && s.calls[id] == Called(reqs, single) && id in t.calls
    requires CallStep(source, s.cache, s.calls[id], t.cache, t.calls[id], plan) && t.calls == s.calls[id := t.calls[id]]
    ensures CanBeAnswered(source, t, id)
            <==> ServedAtOnce(s.cache, reqs, single) || SpansInside(source, Uncached(s.cache, Coalesced(plan)))
    ensures SpansInside(source, Uncached(s.cache, Coalesced(plan))) <==> PlanInside(source, plan)
  {
    UncachedInside(source, s.cache, plan);
    if ServedAtOnce(s.cache, reqs, single) {
      AnsweredAlready(source, t, id);
    } else if t.calls[id].Serving? {
      ServingCanAnswer(source, t, id);
    } else if PlanInside(source, plan) {
      FetchingCanAnswer(source, t, id);
    } else {
      NeverAnswered(source, t, id, reqs, t.calls[id].todo);
    }
  }

  lemma NeverAnswered(source: seq<byte>, t: System, id: nat, reqs: seq<Request>, todo: seq<Span>)
    requires id in t.calls && t.calls[id] == Fetching(reqs, todo) && !SpansInside(source, todo)
    ensures !CanBeAnswered(source, t, id)
  {
    forall path ensures !LeadsToAnswer(source, path, t, id) {
      if IsPath(source, path) && path[0] == t {
        FetchingStuck(source, path, id, reqs, todo, |path| - 1);
      }
    }
  }

  // ----- a policy that does not clamp, and the default one -----

  /** A one-byte source, a request for its byte, and a plan of two bytes: the run can only fail. */
  lemma PlanPastEndFails(source: seq<byte>)
    requires |source| == 1
    ensures var reqs := [Request(0, 1)];
            var waiting := System([], map[0 := Fetching(reqs, [Span(0, 2)])]);
            && InBounds(source, reqs)
            && IsRun(source, [System([], map[]), System([], map[0 := Called(reqs, true)]), waiting,
                              System([], map[0 := Failed(reqs, ReaderFailed)])])
            && !CanBeAnswered(source, waiting, 0)
  {
    var reqs, todo := [Request(0, 1)], [Span(0, 2)];
    var s0, s1 := System([], map[]), System([], map[0 := Called(reqs, true)]);
    var s2, s3 := System([], map[0 := Fetching(reqs, todo)]), System([], map[0 := Failed(reqs, ReaderFailed)]);
    CallArrives(source, s0, 0, reqs, true);
    assert s1 == s0.(calls := s0.calls[0 := Called(reqs, true)]);
    CalledMisses(source, reqs, todo);
    OnlyMove(source, Called(reqs, true), Fetching(reqs, todo), todo);
    OnlyMove(source, Fetching(reqs, todo), Failed(reqs, ReaderFailed), []);
    RunOfFour(source, s0, s1, s2, s3);
    NeverAnswered(source, s2, 0, reqs, todo);
  }

  lemma RunOfFour(source: seq<byte>, s0: System, s1: System, s2: System, s3: System)
    requires s0 == System([], map[]) && Next(source, s0, s1) && Next(source, s1, s2) && Next(source, s2, s3)
    ensures IsRun(source, [s0, s1, s2, s3])
  {
    var run := [s0, s1, s2, s3];
    forall i | 0 <= i < |run| - 1 ensures NextAt(source, run, i) {
      assert i == 0 || i == 1 || i == 2;
    }
  }

  lemma CallArrives(source: seq<byte>, s: System, id: nat, reqs: seq<Request>, single: bool)
    requires id !in s.calls && (single ==> |reqs| == 1)
    ensures Next(source, s, s.(calls := s.calls[id := Called(reqs, single)]))
  {
    assert Arrives(s, s.(calls := s.calls[id := Called(reqs, single)]), id, reqs, single);
  }

  lemma OnlyMove(source: seq<byte>, p: Phase, q: Phase, plan: seq<Span>)
    requires CallStep(source, [], p, [], q, plan)
    ensures Next(source, System([], map[0 := p]), System([], map[0 := q]))
  {
    var s, t := System([], map[0 := p]), System([], map[0 := q]);
    assert t.calls == s.calls[0 := q];
    assert Steps(source, s, t, 0, plan, q);
  }

  lemma CalledMisses(source: seq<byte>, reqs: seq<Request>, todo: seq<Span>)
    requires |source| == 1 && reqs == [Request(0, 1)] && todo == [Span(0, 2)]
    ensures CallStep(source, [], Called(reqs, true), [], Fetching(reqs, todo), todo)
  {
    PlanOfTwo();
    NothingServed(0, 1);
    Misses(source, [], reqs, todo, todo);
  }

  lemma Misses(source: seq<byte>, cache: seq<CachedRange>, reqs: seq<Request>, plan: seq<Span>, todo: seq<Span>)
    requires InBounds(source, reqs) && !ServedAtOnce(cache, reqs, true) && Uncached(cache, Coalesced(plan)) == todo && todo != []
    ensures CallStep(source, cache, Called(reqs, true), cache, Fetching(reqs, todo), plan)
  {}

  lemma NothingServed(offset: nat, len: nat)
    requires len > 0
    ensures Served([], offset, len) == None && !AllCached([], offset, len)
  {
    assert Lookup([], offset).None?;
  }

  lemma PlanOfTwo()
    ensures Uncached([], Coalesced([Span(0, 2)])) == [Span(0, 2)]
  {
    var spans := [Span(0, 2)];
    assert Nonempty(spans) == spans;
    assert StreamFetcher.SortByStart(spans) == spans;
    assert JoinAll(spans) == spans;
    NothingServed(0, 2);
  }

  /** The default policy: the header for a request that starts in it, and the request, both clamped to the source. */
  function HeaderAwarePlan(headerLen: nat, requested: Span, total: nat): seq<Span> {
    var headerEnd, start, end := Min(headerLen, total), Min(requested.start, total), Min(requested.end, total);
    (if headerEnd > 0 && requested.start < headerEnd then [Span(0, headerEnd)] else [])
    + (if end > start then [Span(start, end)] else [])
  }

  /** The default policy plans exactly the bytes requested and, for a request that starts in the header, the header; nothing past the end. */
  lemma HeaderAwarePlanCovers(headerLen: nat, requested: Span, source: seq<byte>, pos: nat)
    ensures PlanInside(source, HeaderAwarePlan(headerLen, requested, |source|))
    ensures Planned(HeaderAwarePlan(headerLen, requested, |source|), pos)
            <==> pos < |source| && (requested.start <= pos < requested.end || (pos < headerLen && requested.start < headerLen && requested.start < |source|))
  {
    var plan := HeaderAwarePlan(headerLen, requested, |source|);
    if requested.Has(pos) && pos < |source| {
      assert plan[|plan| - 1].Has(pos);
    }
    if pos < |source| && pos < headerLen && requested.start < headerLen && requested.start < |source| {
      assert plan[0].Has(pos);
    }
  }

  /** What the default policy plans for one request. */
  ghost function HeaderAwareOne(headerLen: nat, cache: seq<CachedRange>, r: Request, total: nat): seq<Span> {
    if AllCached(cache, r.offset, r.len) then [] else HeaderAwarePlan(headerLen, Span(r.offset, r.offset + r.len), total)
  }

  /** What the default policy plans for a call: the plans of the requests that are not cached, in order. */
  ghost function HeaderAwareCall(headerLen: nat, cache: seq<CachedRange>, reqs: seq<Request>, total: nat): seq<Span> {
    if reqs == [] then []
    else HeaderAwareCall(headerLen, cache, reqs[..|reqs| - 1], total) + HeaderAwareOne(headerLen, cache, reqs[|reqs| - 1], total)
  }

  lemma {:induction false} HeaderAwareInside(headerLen: nat, cache: seq<CachedRange>, reqs: seq<Request>, source: seq<byte>)
    ensures PlanInside(source, HeaderAwareCall(headerLen, cache, reqs, |source|))
  {
    if reqs != [] {
      var r := reqs[|reqs| - 1];
      HeaderAwareInside(headerLen, cache, reqs[..|reqs| - 1], source);
      HeaderAwarePlanCovers(headerLen, Span(r.offset, r.offset + r.len), source, 0);
    }
  }

  /** So with the default policy every call in bounds, for one range or many, can be answered. */
  lemma DefaultPolicyAnswers(source: seq<byte>, s: System, t: System, id: nat, reqs: seq<Request>, single: bool, headerLen: nat)
    requires SystemOk(source, s) && InBounds(source, reqs) && id in s.calls && s.calls[id] == Called(reqs, single) && id in t.calls
    requires t.calls == s.calls[id := t.calls[id]]
    requires CallStep(source, s.cache, s.calls[id], t.cache, t.calls[id], HeaderAwareCall(headerLen, s.cache, reqs, |source|))
    ensures CanBeAnswered(source, t, id)
  {
    HeaderAwareInside(headerLen, s.cache, reqs, source);
    AnswerableExactly(source, s, t, id, reqs, single, HeaderAwareCall(headerLen, s.cache, reqs, |source|));
  }
}
