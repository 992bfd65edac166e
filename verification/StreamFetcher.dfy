/**
 Threads that fetch byte ranges through one shared cache. The cache lock is held only for
 lookups, planning and inserts, never across a fetch, so fetches of different threads
 interleave; the machine below takes one locked section or one fetch per step.
 */
module StreamFetcher {
  import opened Wrappers
  import opened Bsq
  import StableSort
  import opened RangeCache

  // ----- coalescing a plan -----

  datatype Span = Span(start: nat, end: nat) {
    predicate Has(pos: nat) { start <= pos < end }
  }

  predicate Planned(spans: seq<Span>, pos: nat) { exists k | 0 <= k < |spans| :: spans[k].Has(pos) }

  function Nonempty(spans: seq<Span>): seq<Span> {
    if spans == [] then []
    else Nonempty(spans[..|spans| - 1]) + if spans[|spans| - 1].start < spans[|spans| - 1].end then [spans[|spans| - 1]] else []
  }

  function StartOf(s: Span): nat { s.start }

  /** The stable sort by start. */
  function SortByStart(spans: seq<Span>): seq<Span> { StableSort.SortBy(StartOf, spans) }

  /** The next span joins the last merged one if it touches it. */
  function Join(merged: seq<Span>, s: Span): seq<Span> {
    if merged != [] && s.start <= merged[|merged| - 1].end
    then merged[|merged| - 1 := merged[|merged| - 1].(end := Max(merged[|merged| - 1].end, s.end))]
    else merged + [s]
  }

  function JoinAll(spans: seq<Span>): seq<Span> {
    if spans == [] then [] else Join(JoinAll(spans[..|spans| - 1]), spans[|spans| - 1])
  }

  function Coalesced(spans: seq<Span>): seq<Span> { JoinAll(SortByStart(Nonempty(spans))) }

  method Coalesce(spans: seq<Span>) returns (merged: seq<Span>)
    ensures merged == Coalesced(spans)
  {
    var sorted := SortByStart(Nonempty(spans));
    merged := [];
    for k := 0 to |sorted|
      invariant merged == JoinAll(sorted[..k])
    {
      var r := sorted[k];
      assert sorted[..k + 1][..k] == sorted[..k];
      if merged != [] && r.start <= merged[|merged| - 1].end {
        var last := merged[|merged| - 1];
        merged := merged[|merged| - 1 := last.(end := Max(last.end, r.end))];
      } else {
        merged := merged + [r];
      }
    }
    assert sorted[..|sorted|] == sorted;
  }

  lemma PlannedSnoc(spans: seq<Span>, s: Span, pos: nat)
    ensures Planned(spans + [s], pos) <==> Planned(spans, pos) || s.Has(pos)
  {
    if Planned(spans, pos) {
      var k :| 0 <= k < |spans| && spans[k].Has(pos);
      assert (spans + [s])[k].Has(pos);
    }
    if s.Has(pos) {
      assert (spans + [s])[|spans|].Has(pos);
    }
  }

  lemma {:induction false} NonemptyPlans(spans: seq<Span>, pos: nat)
    ensures Planned(Nonempty(spans), pos) <==> Planned(spans, pos)
    ensures forall k | 0 <= k < |Nonempty(spans)| :: Nonempty(spans)[k].start < Nonempty(spans)[k].end
  {
    if spans != [] {
      var front, last := spans[..|spans| - 1], spans[|spans| - 1];
      assert spans == front + [last];
      NonemptyPlans(front, pos);
      PlannedSnoc(front, last, pos);
      PlannedSnoc(Nonempty(front), last, pos);
      assert Nonempty(front) + [] == Nonempty(front);
    }
  }

  /** Sorted by start, no span empty. */
  ghost predicate Sorted(spans: seq<Span>) {
    && (forall k | 0 <= k < |spans| :: spans[k].start < spans[k].end)
    && forall i, k | 0 <= i < k < |spans| :: spans[i].start <= spans[k].start
  }

  lemma SamePlan(a: seq<Span>, b: seq<Span>, pos: nat)
    requires multiset(a) == multiset(b) && Planned(a, pos)
    ensures Planned(b, pos)
  {
    var k :| 0 <= k < |a| && a[k].Has(pos);
    assert a[k] in multiset(b);
    var j :| 0 <= j < |b| && b[j] == a[k];
  }

  lemma SortPlans(spans: seq<Span>, pos: nat)
    requires forall k | 0 <= k < |spans| :: spans[k].start < spans[k].end
    ensures Sorted(SortByStart(spans))
    ensures Planned(SortByStart(spans), pos) <==> Planned(spans, pos)
  {
    var sorted := SortByStart(spans);
    StableSort.SortBySorts(StartOf, spans, 0);
    forall k | 0 <= k < |sorted| ensures sorted[k].start < sorted[k].end {
      assert sorted[k] in multiset(spans);
    }
    forall i, k | 0 <= i < k < |sorted| ensures sorted[i].start <= sorted[k].start {
      assert StartOf(sorted[i]) <= StartOf(sorted[k]);
    }
    if Planned(sorted, pos) {
      SamePlan(sorted, spans, pos);
    }
    if Planned(spans, pos) {
      SamePlan(spans, sorted, pos);
    }
  }

  /** No span is empty, and there is a gap between any two. */
  ghost predicate Gapped(spans: seq<Span>) {
    && (forall k | 0 <= k < |spans| :: spans[k].start < spans[k].end)
    && forall i, k | 0 <= i < k < |spans| :: spans[i].end < spans[k].start
  }

  lemma {:induction false} JoinAllPlans(spans: seq<Span>, pos: nat)
    requires Sorted(spans)
    ensures Gapped(JoinAll(spans))
    ensures spans != [] ==> JoinAll(spans) != [] && JoinAll(spans)[|JoinAll(spans)| - 1].start <= spans[|spans| - 1].start
    ensures Planned(JoinAll(spans), pos) <==> Planned(spans, pos)
  {
    if spans != [] {
      var front, last := spans[..|spans| - 1], spans[|spans| - 1];
      assert spans == front + [last];
      JoinAllPlans(front, pos);
      PlannedSnoc(front, last, pos);
      JoinPlans(JoinAll(front), last, pos);
    }
  }

  lemma JoinPlans(merged: seq<Span>, s: Span, pos: nat)
    requires Gapped(merged) && s.start < s.end
    requires merged != [] ==> merged[|merged| - 1].start <= s.start
    ensures Gapped(Join(merged, s)) && Join(merged, s) != [] && Join(merged, s)[|Join(merged, s)| - 1].start <= s.start
    ensures Planned(Join(merged, s), pos) <==> Planned(merged, pos) || s.Has(pos)
  {
    PlannedSnoc(merged, s, pos);
    if merged != [] {
      var front, last := merged[..|merged| - 1], merged[|merged| - 1];
      assert merged == front + [last];
      PlannedSnoc(front, last, pos);
      if s.start <= last.end {
        var wide := last.(end := Max(last.end, s.end));
        assert Join(merged, s) == front + [wide];
        PlannedSnoc(front, wide, pos);
      }
    }
  }

  /** A coalesced plan asks for exactly the planned bytes, and for each of them once. */
  lemma CoalescedPlan(spans: seq<Span>, pos: nat)
    ensures Gapped(Coalesced(spans))
    ensures Planned(Coalesced(spans), pos) <==> Planned(spans, pos)
  {
    NonemptyPlans(spans, pos);
    SortPlans(Nonempty(spans), pos);
    JoinAllPlans(SortByStart(Nonempty(spans)), pos);
  }

  // ----- the machine -----

  datatype Request = Request(offset: nat, len: nat)

  datatype FetchError = OutOfBounds | ReaderFailed

  /** Where a call stands. `out` holds the answers to the first requests. */
  datatype Phase =
    | Called(reqs: seq<Request>, single: bool)
    | Fetching(reqs: seq<Request>, todo: seq<Span>)
    | Filling(reqs: seq<Request>, todo: seq<Span>, data: seq<seq<byte>>)
    | Serving(reqs: seq<Request>, out: seq<seq<byte>>)
    | Healing(reqs: seq<Request>, out: seq<seq<byte>>)
    | Healed(reqs: seq<Request>, out: seq<seq<byte>>, healed: seq<byte>)
    | Answered(reqs: seq<Request>, out: seq<seq<byte>>)
    | Failed(reqs: seq<Request>, error: FetchError)

  /** The shared cache and the calls in progress or done. */
  datatype System = System(cache: seq<CachedRange>, calls: map<nat, Phase>)

  ghost predicate InBounds(source: seq<byte>, reqs: seq<Request>) {
    forall k | 0 <= k < |reqs| :: reqs[k].offset + reqs[k].len <= |source|
  }

  /** What a reader that satisfies its contract returns for the spans: exactly their bytes. */
  ghost predicate ReadExactly(source: seq<byte>, todo: seq<Span>, data: seq<seq<byte>>) {
    && |data| == |todo|
    && forall k | 0 <= k < |todo| :: todo[k].start <= todo[k].end <= |source| && data[k] == source[todo[k].start..todo[k].end]
  }

  /** The coalesced spans that the cache does not hold already. */
  ghost function Uncached(cache: seq<CachedRange>, spans: seq<Span>): seq<Span> {
    if spans == [] then []
    else
      var last := spans[|spans| - 1];
      Uncached(cache, spans[..|spans| - 1])
      + if last.start <= last.end && AllCached(cache, last.start, last.end - last.start) then [] else [last]
  }

  /** The first fetched byte for a position. */
  ghost function Fetched(todo: seq<Span>, data: seq<seq<byte>>, pos: nat): Option<byte>
    requires |data| == |todo|
  {
    if todo == [] then None
    else if todo[0].start <= pos < todo[0].start + |data[0]| then Some(data[0][pos - todo[0].start])
    else Fetched(todo[1..], data[1..], pos)
  }

  /** The cache after inserting everything fetched, first to last. */
  ghost predicate FilledWith(before: seq<CachedRange>, todo: seq<Span>, data: seq<seq<byte>>, after: seq<CachedRange>)
    requires |data| == |todo|
  {
    forall pos: nat :: Lookup(after, pos) == if Lookup(before, pos).Some? then Lookup(before, pos) else Fetched(todo, data, pos)
  }

  /** One step of one call: p becomes q, and the cache becomes `next`. The policy's plan may be anything. */
  ghost predicate CallStep(source: seq<byte>, cache: seq<CachedRange>, p: Phase, next: seq<CachedRange>, q: Phase, plan: seq<Span>) {
    match p
    case Called(reqs, single) =>
      && next == cache
      && if !InBounds(source, reqs) then q == Failed(reqs, OutOfBounds)
         else if single && |reqs| == 1 && Served(cache, reqs[0].offset, reqs[0].len).Some?
         then q == Answered(reqs, [Served(cache, reqs[0].offset, reqs[0].len).value])
         else
           var todo := Uncached(cache, Coalesced(plan));
           q == if todo == [] then Serving(reqs, []) else Fetching(reqs, todo)
    case Fetching(reqs, todo) =>
      && next == cache
      && (q == Failed(reqs, ReaderFailed) || (q.Filling? && q.reqs == reqs && q.todo == todo && ReadExactly(source, todo, q.data)))
    case Filling(reqs, todo, data) =>
      |data| == |todo| && Separated(next) && FilledWith(cache, todo, data, next) && q == Serving(reqs, [])
    case Serving(reqs, out) =>
      && next == cache
      && if |reqs| <= |out| then q == Answered(reqs, out)
         else
           var r := reqs[|out|];
           var bytes := Served(cache, r.offset, r.len);
           q == if bytes.Some? then Serving(reqs, out + [bytes.value]) else Healing(reqs, out)
    case Healing(reqs, out) =>
      && next == cache && |out| < |reqs|
      && (q == Failed(reqs, ReaderFailed)
          || (q.Healed? && q.reqs == reqs && q.out == out
              && ReadExactly(source, [Span(reqs[|out|].offset, reqs[|out|].offset + reqs[|out|].len)], [q.healed])))
    case Healed(reqs, out, healed) =>
      && |out| < |reqs| && Separated(next) && Inserted(cache, reqs[|out|].offset, healed, next)
      && q == Serving(reqs, out + [healed])
    case Answered(_, _) => false
    case Failed(_, _) => false
  }

  /** A new call arrives; a single request comes alone. */
  predicate Arrives(s: System, t: System, id: nat, reqs: seq<Request>, single: bool) {
    id !in s.calls && (single ==> |reqs| == 1) && t == s.(calls := s.calls[id := Called(reqs, single)])
  }

  /** A call becomes q; where it consults the policy, the policy answers with the plan. */
  ghost predicate Steps(source: seq<byte>, s: System, t: System, id: nat, plan: seq<Span>, q: Phase) {
    id in s.calls && CallStep(source, s.cache, s.calls[id], t.cache, q, plan) && t.calls == s.calls[id := q]
  }

  /** Some call takes a step, or a new call arrives. */
  ghost predicate Next(source: seq<byte>, s: System, t: System) {
    || (exists id: nat, reqs, single :: Arrives(s, t, id, reqs, single))
    || (exists id: nat, plan, q :: Steps(source, s, t, id, plan, q))
  }

  ghost predicate IsRun(source: seq<byte>, run: seq<System>) {
    && run != [] && run[0] == System([], map[])
    && forall i | 0 <= i < |run| - 1 :: NextAt(source, run, i)
  }

  ghost predicate NextAt(source: seq<byte>, run: seq<System>, i: nat)
    requires i + 1 < |run|
  {
    Next(source, run[i], run[i + 1])
  }

  lemma {:induction false} FetchedSnoc(todo: seq<Span>, data: seq<seq<byte>>, k: nat, pos: nat)
    requires |data| == |todo| && k < |todo|
    ensures Fetched(todo[..k + 1], data[..k + 1], pos)
            == if Fetched(todo[..k], data[..k], pos).Some? then Fetched(todo[..k], data[..k], pos)
               else if todo[k].start <= pos < todo[k].start + |data[k]| then Some(data[k][pos - todo[k].start]) else None
  {
    if k > 0 {
      FetchedSnoc(todo[1..], data[1..], k - 1, pos);
      assert todo[..k + 1][1..] == todo[1..][..k] && data[..k + 1][1..] == data[1..][..k];
      assert todo[..k][1..] == todo[1..][..k - 1] && data[..k][1..] == data[1..][..k - 1];
    }
  }

  /** Inserts everything fetched, under one lock: the filling step of the machine. */
  method FillCache(cache: Cache, todo: seq<Span>, data: seq<seq<byte>>)
    requires cache.Valid() && |data| == |todo|
    modifies cache
    ensures cache.Valid() && FilledWith(old(cache.ranges), todo, data, cache.ranges)
  {
    for k := 0 to |todo|
      invariant cache.Valid() && FilledWith(old(cache.ranges), todo[..k], data[..k], cache.ranges)
    {
      ghost var was := cache.ranges;
      cache.Insert(todo[k].start, data[k]);
      forall pos: nat
        ensures Lookup(cache.ranges, pos)
                == if Lookup(old(cache.ranges), pos).Some? then Lookup(old(cache.ranges), pos) else Fetched(todo[..k + 1], data[..k + 1], pos)
      {
        FetchedSnoc(todo, data, k, pos);
        assert Lookup(cache.ranges, pos) == After(was, todo[k].start, data[k], pos);
      }
    }
    assert todo[..|todo|] == todo && data[..|data|] == data;
  }

  // ----- what every step keeps -----

  /** The answers so far are the source's bytes. */
  ghost predicate ExactSoFar(source: seq<byte>, reqs: seq<Request>, out: seq<seq<byte>>) {
    && |out| <= |reqs| && InBounds(source, reqs)
    && forall k | 0 <= k < |out| :: out[k] == source[reqs[k].offset..reqs[k].offset + reqs[k].len]
  }

  ghost predicate PhaseOk(source: seq<byte>, p: Phase) {
    match p
    case Called(_, _) => true
    case Fetching(reqs, _) => InBounds(source, reqs)
    case Filling(reqs, todo, data) => InBounds(source, reqs) && ReadExactly(source, todo, data)
    case Serving(reqs, out) => ExactSoFar(source, reqs, out)
    case Healing(reqs, out) => ExactSoFar(source, reqs, out) && |out| < |reqs|
    case Healed(reqs, out, healed) =>
      ExactSoFar(source, reqs, out) && |out| < |reqs| && healed == source[reqs[|out|].offset..reqs[|out|].offset + reqs[|out|].len]
    case Answered(reqs, out) => ExactSoFar(source, reqs, out) && |out| == |reqs|
    case Failed(reqs, error) => error == OutOfBounds <==> !InBounds(source, reqs)
  }

  ghost predicate SystemOk(source: seq<byte>, s: System) {
    && Separated(s.cache) && Coherent(s.cache, source)
    && forall id | id in s.calls :: PhaseOk(source, s.calls[id])
  }

  lemma {:induction false} FetchedIsExact(source: seq<byte>, todo: seq<Span>, data: seq<seq<byte>>, pos: nat)
    requires ReadExactly(source, todo, data)
    ensures Fetched(todo, data, pos).Some? ==> pos < |source| && Fetched(todo, data, pos).value == source[pos]
  {
    if todo != [] {
      assert data[0] == source[todo[0].start..todo[0].end];
      assert ReadExactly(source, todo[1..], data[1..]);
      FetchedIsExact(source, todo[1..], data[1..], pos);
    }
  }

  lemma FillKeeps(source: seq<byte>, cache: seq<CachedRange>, todo: seq<Span>, data: seq<seq<byte>>, next: seq<CachedRange>)
    requires Coherent(cache, source) && ReadExactly(source, todo, data) && FilledWith(cache, todo, data, next)
    ensures Coherent(next, source)
  {
    forall pos: nat
      ensures Lookup(next, pos).Some? ==> pos < |source| && Lookup(next, pos).value == source[pos]
    {
      FetchedIsExact(source, todo, data, pos);
    }
  }

  lemma InsertKeeps(source: seq<byte>, cache: seq<CachedRange>, start: nat, data: seq<byte>, next: seq<CachedRange>)
    requires Coherent(cache, source) && start + |data| <= |source| && data == source[start..start + |data|]
    requires Inserted(cache, start, data, next)
    ensures Coherent(next, source)
  {
    forall pos: nat
      ensures Lookup(next, pos).Some? ==> pos < |source| && Lookup(next, pos).value == source[pos]
    {
      assert Lookup(next, pos) == After(cache, start, data, pos);
    }
  }

  /** A step leaves the cache separated and coherent with the source. */
  lemma StepKeepsCache(source: seq<byte>, cache: seq<CachedRange>, p: Phase, next: seq<CachedRange>, q: Phase, plan: seq<Span>)
    requires Separated(cache) && Coherent(cache, source) && PhaseOk(source, p)
    requires CallStep(source, cache, p, next, q, plan)
    ensures Separated(next) && Coherent(next, source)
  {
    match p
    case Filling(_, todo, data) => FillKeeps(source, cache, todo, data, next);
    case Healed(reqs, out, healed) => InsertKeeps(source, cache, reqs[|out|].offset, healed, next);
    case _ =>
  }

  /** A step leaves the call's answers exact. */
  lemma StepKeepsPhase(source: seq<byte>, cache: seq<CachedRange>, p: Phase, next: seq<CachedRange>, q: Phase, plan: seq<Span>)
    requires Coherent(cache, source) && PhaseOk(source, p)
    requires CallStep(source, cache, p, next, q, plan)
    ensures PhaseOk(source, q)
  {
    match p
    case Called(reqs, single) =>
      if InBounds(source, reqs) && |reqs| == 1 && Served(cache, reqs[0].offset, reqs[0].len).Some? {
        ServedIsExact(cache, source, reqs[0].offset, reqs[0].len);
      }
    case Serving(reqs, out) =>
      if |out| < |reqs| && Served(cache, reqs[|out|].offset, reqs[|out|].len).Some? {
        ServedIsExact(cache, source, reqs[|out|].offset, reqs[|out|].len);
      }
    case Healing(reqs, out) =>
      if q.Healed? {
        var span := Span(reqs[|out|].offset, reqs[|out|].offset + reqs[|out|].len);
        assert [q.healed][0] == source[[span][0].start..[span][0].end];
      }
    case _ =>
  }

  lemma {:induction false} RunKeeps(source: seq<byte>, run: seq<System>, i: nat)
    requires IsRun(source, run) && i < |run|
    ensures SystemOk(source, run[i])
  {
    if i > 0 {
      RunKeeps(source, run, i - 1);
      var s, t := run[i - 1], run[i];
      assert NextAt(source, run, i - 1);
      if id: nat, plan, q :| Steps(source, s, t, id, plan, q) {
        StepKeepsCache(source, s.cache, s.calls[id], t.cache, q, plan);
        StepKeepsPhase(source, s.cache, s.calls[id], t.cache, q, plan);
      }
    }
  }

  /**
   However the calls interleave, and whatever the policy plans: an answered call was in bounds and
   got exactly the bytes it asked for, and a call fails as out of bounds exactly when it is.
   */
  lemma AnswersAreExact(source: seq<byte>, run: seq<System>, i: nat, id: nat)
    requires IsRun(source, run) && i < |run| && id in run[i].calls
    ensures match run[i].calls[id]
            case Answered(reqs, out) =>
              && |out| == |reqs|
              && forall k | 0 <= k < |reqs| ::
                   reqs[k].offset + reqs[k].len <= |source| && out[k] == source[reqs[k].offset..reqs[k].offset + reqs[k].len]
            case Failed(reqs, error) => error == OutOfBounds <==> !InBounds(source, reqs)
            case _ => true
  {
    RunKeeps(source, run, i);
  }

  /** What is cached stays cached, with the same bytes. */
  lemma {:induction false} CacheGrows(source: seq<byte>, run: seq<System>, i: nat, j: nat, pos: nat)
    requires IsRun(source, run) && i <= j < |run| && Lookup(run[i].cache, pos).Some?
    ensures Lookup(run[j].cache, pos) == Lookup(run[i].cache, pos)
  {
    if i < j {
      CacheGrows(source, run, i, j - 1, pos);
      var s, t := run[j - 1], run[j];
      assert NextAt(source, run, j - 1);
      if id: nat, plan, q :| Steps(source, s, t, id, plan, q) {
        match s.calls[id]
        case Healed(reqs, out, healed) => assert Lookup(t.cache, pos) == After(s.cache, reqs[|out|].offset, healed, pos);
        case _ =>
      }
    }
  }
}
