/**
 The writer handed to Python: it owns the format writer and the file handles the library opened,
 and closing it commits both. What the format writer and the handles answer may depend on
 everything asked of them before.
 */
module OwningWriter {
  import opened Wrappers

  datatype Event = Added(key: string) | MetadataSet(metadata: nat) | Finalized | HandleClosed(handle: nat)

  datatype Error = WriterClosed | Failed(code: nat)

  /** Nothing when an operation succeeds. */
  type Failure = Option<Error>

  datatype Op = Add(key: string) | SetMetadata(metadata: nat) | Close

  type Answers = seq<Event> -> Failure

  /** The first failure among the events of a log from position i on. */
  function FirstFailure(answer: Answers, log: seq<Event>, i: nat): (r: Failure)
    decreases |log| - i
  {
    if i >= |log| then None
    else if answer(log[..i + 1]).Some? then answer(log[..i + 1])
    else FirstFailure(answer, log, i + 1)
  }

  /** The events of closing every handle in turn. */
  function HandlesClosed(handles: seq<nat>): (events: seq<Event>)
    ensures |events| == |handles|
  {
    seq(|handles|, i requires 0 <= i < |handles| => HandleClosed(handles[i]))
  }

  datatype State = State(log: seq<Event>, inner: bool, handles: seq<nat>)

  /** The operations as their methods specify them. */
  function Step(answer: Answers, s: State, op: Op): (State, Failure) {
    match op
    case Add(key) =>
      if s.inner then (s.(log := s.log + [Added(key)]), answer(s.log + [Added(key)])) else (s, Some(WriterClosed))
    case SetMetadata(m) =>
      if s.inner then (s.(log := s.log + [MetadataSet(m)]), answer(s.log + [MetadataSet(m)])) else (s, Some(WriterClosed))
    case Close =>
      var log := s.log + (if s.inner then [Finalized] + HandlesClosed(s.handles) else []);
      (State(log, false, []), FirstFailure(answer, log, |s.log|))
  }

  class DatasetWriter {
    const answer: Answers
    var log: seq<Event>
    var inner: bool
    var ownedHandles: seq<nat>

    /** The handles are dropped together with the format writer. */
    ghost predicate Valid()
      reads this
    {
      !inner ==> ownedHandles == []
    }

    function Current(): State
      reads this
    {
      State(log, inner, ownedHandles)
    }

    constructor (answer: Answers, handles: seq<nat>)
      ensures Valid() && this.answer == answer
      ensures Current() == State([], true, handles)
    {
      this.answer := answer;
      log, inner, ownedHandles := [], true, handles;
    }

    method Ask(event: Event) returns (failure: Failure)
      modifies this`log
      ensures log == old(log) + [event] && failure == answer(log)
    {
      log := log + [event];
      failure := answer(log);
    }

    method AddAsset(key: string) returns (failure: Failure)
      requires Valid()
      modifies this`log
      ensures Valid()
      ensures (Current(), failure) == Step(answer, old(Current()), Add(key))
    {
      if !inner {
        return Some(WriterClosed);
      }
      failure := Ask(Added(key));
    }

    method SetMetadata(metadata: nat) returns (failure: Failure)
      requires Valid()
      modifies this`log
      ensures Valid()
      ensures (Current(), failure) == Step(answer, old(Current()), Op.SetMetadata(metadata))
    {
      if !inner {
        return Some(WriterClosed);
      }
      failure := Ask(MetadataSet(metadata));
    }

    /** Finalizes the format writer, then closes every handle whatever failed before, and reports the first failure. */
    method Close() returns (failure: Failure)
      requires Valid()
      modifies this
      ensures Valid()
      ensures (Current(), failure) == Step(answer, old(Current()), Op.Close)
    {
      var finalize: Failure := None;
      if inner {
        inner := false;
        finalize := Ask(Finalized);
      }
      var firstError: Failure := None;
      var handles := ownedHandles;
      ownedHandles := [];
      ghost var start, base := |log|, log;
      for i := 0 to |handles|
        invariant !inner && ownedHandles == []
        invariant log == base + HandlesClosed(handles[..i])
        invariant firstError == FirstFailure(answer, log, start)
      {
        ghost var before := log;
        var answered := Ask(HandleClosed(handles[i]));
        FailureOfSnoc(answer, before, HandleClosed(handles[i]), start);
        if answered.Some? && firstError.None? {
          firstError := answered;
        }
      }
      assert handles[..|handles|] == handles;
      FailureFromFirst(answer, log, |old(log)|, start, finalize);
      assert log == old(log) + (if old(inner) then [Finalized] + HandlesClosed(handles) else []);
      if finalize.Some? {
        return finalize;
      }
      failure := firstError;
    }
  }

  /** What event i of the log was answered. */
  function Answer(answer: Answers, log: seq<Event>, i: nat): Failure
    requires i < |log|
  {
    answer(log[..i + 1])
  }

  /** Event j of the log failed, and none from position i up to it. */
  ghost predicate FailsFirst(answer: Answers, log: seq<Event>, i: nat, j: nat) {
    && i <= j < |log| && Answer(answer, log, j).Some?
    && forall k | i <= k < j :: Answer(answer, log, k).None?
  }

  /** Nothing is reported exactly when nothing failed; otherwise the failure that came first is. */
  lemma {:induction false} FirstFailureIs(answer: Answers, log: seq<Event>, i: nat)
    ensures FirstFailure(answer, log, i).None? <==> forall j | i <= j < |log| :: Answer(answer, log, j).None?
    ensures FirstFailure(answer, log, i).Some? ==>
              exists j :: FailsFirst(answer, log, i, j) && FirstFailure(answer, log, i) == Answer(answer, log, j)
    decreases |log| - i
  {
    if i < |log| {
      if Answer(answer, log, i).Some? {
        assert FailsFirst(answer, log, i, i);
      } else {
        FirstFailureIs(answer, log, i + 1);
        if FirstFailure(answer, log, i).Some? {
          var j :| FailsFirst(answer, log, i + 1, j) && FirstFailure(answer, log, i + 1) == Answer(answer, log, j);
          assert FailsFirst(answer, log, i, j);
        }
      }
    }
  }

  lemma {:induction false} FailureOfSnoc(answer: Answers, log: seq<Event>, event: Event, i: nat)
    requires i <= |log|
    ensures FirstFailure(answer, log + [event], i)
            == if FirstFailure(answer, log, i).Some? then FirstFailure(answer, log, i) else answer(log + [event])
    decreases |log| - i
  {
    var longer := log + [event];
    if i == |log| {
      assert longer[..i + 1] == longer;
    } else {
      assert longer[..i + 1] == log[..i + 1];
      FailureOfSnoc(answer, log, event, i + 1);
    }
  }

  /** A failure to finalize comes before any failure to close a handle. */
  lemma FailureFromFirst(answer: Answers, log: seq<Event>, i: nat, start: nat, finalize: Failure)
    requires i <= start <= i + 1 && start <= |log|
    requires start == i ==> finalize == None
    requires start == i + 1 ==> finalize == answer(log[..start])
    ensures FirstFailure(answer, log, i) == if finalize.Some? then finalize else FirstFailure(answer, log, start)
  {
  }

  // Runs.

  function Run(answer: Answers, handles: seq<nat>, ops: seq<Op>): (State, seq<Failure>) {
    if ops == [] then (State([], true, handles), [])
    else
      var before := Run(answer, handles, ops[..|ops| - 1]);
      var after := Step(answer, before.0, ops[|ops| - 1]);
      (after.0, before.1 + [after.1])
  }

  /** The number of operations before the first close. */
  function FirstClose(ops: seq<Op>): (k: nat)
    ensures k <= |ops|
    ensures forall i | 0 <= i < k :: !ops[i].Close?
    ensures k < |ops| ==> ops[k].Close?
  {
    if ops == [] || ops[0].Close? then 0 else 1 + FirstClose(ops[1..])
  }

  /** What operations other than close ask of the format writer. */
  function Requests(ops: seq<Op>): (events: seq<Event>)
    ensures |events| == |ops|
  {
    seq(|ops|, i requires 0 <= i < |ops| =>
      match ops[i] case Add(key) => Added(key) case SetMetadata(m) => MetadataSet(m) case Close => Finalized)
  }

  /** All that is ever asked of the format writer and the handles: the requests before the first close, then one closing. */
  function LogOf(handles: seq<nat>, ops: seq<Op>): seq<Event> {
    var k := FirstClose(ops);
    Requests(ops[..k]) + (if k == |ops| then [] else [Finalized] + HandlesClosed(handles))
  }

  lemma LogOfFront(handles: seq<nat>, ops: seq<Op>)
    requires ops != []
    ensures var front, last := ops[..|ops| - 1], ops[|ops| - 1];
            LogOf(handles, ops) == LogOf(handles, front)
            + (if FirstClose(ops) == |ops| then Requests([last])
               else if FirstClose(ops) == |ops| - 1 then [Finalized] + HandlesClosed(handles)
               else [])
  {
    FirstCloseOfFront(ops);
    var front, last, k := ops[..|ops| - 1], ops[|ops| - 1], FirstClose(ops);
    assert front[..FirstClose(front)] == ops[..FirstClose(front)];
    if k == |ops| {
      assert ops[..k] == ops && front[..|front|] == front;
      assert Requests(ops) == Requests(front) + Requests([last]);
    }
  }

  lemma {:induction false} RunLogs(answer: Answers, handles: seq<nat>, ops: seq<Op>)
    ensures var (s, results) := Run(answer, handles, ops);
            && |results| == |ops|
            && (s.inner <==> FirstClose(ops) == |ops|)
            && s.handles == (if s.inner then handles else [])
            && s.log == LogOf(handles, ops)
  {
    if ops != [] {
      var front, last := ops[..|ops| - 1], ops[|ops| - 1];
      RunLogs(answer, handles, front);
      FirstCloseOfFront(ops);
      LogOfFront(handles, ops);
      if FirstClose(ops) == |ops| {
        assert Requests([last])[0] == (match last case Add(key) => Added(key) case SetMetadata(m) => MetadataSet(m) case Close => Finalized);
      }
    }
  }

  /** The i-th operation of a run answers as it should. */
  ghost predicate AnswersRight(answer: Answers, handles: seq<nat>, ops: seq<Op>, results: seq<Failure>, i: nat)
    requires i < |ops| == |results|
  {
    var k, log := FirstClose(ops), LogOf(handles, ops);
    if i < k then i < |log| && results[i] == Answer(answer, log, i)
    else if i == k then results[i] == FirstFailure(answer, log, k)
    else results[i] == if ops[i].Close? then None else Some(WriterClosed)
  }

  lemma {:induction false} RunAnswers(answer: Answers, handles: seq<nat>, ops: seq<Op>, i: nat)
    requires i < |ops|
    ensures |Run(answer, handles, ops).1| == |ops|
    ensures AnswersRight(answer, handles, ops, Run(answer, handles, ops).1, i)
  {
    var front := ops[..|ops| - 1];
    RunLogs(answer, handles, ops);
    RunLogs(answer, handles, front);
    if i < |front| {
      RunAnswers(answer, handles, front, i);
      FrontAnswers(answer, handles, ops, Run(answer, handles, front).1, Run(answer, handles, ops).1, i);
    } else {
      LastAnswers(answer, handles, ops);
    }
  }

  lemma FrontAnswers(answer: Answers, handles: seq<nat>, ops: seq<Op>, short: seq<Failure>, long: seq<Failure>, i: nat)
    requires i < |ops| - 1 == |short| && |long| == |ops| && short <= long
    requires AnswersRight(answer, handles, ops[..|ops| - 1], short, i)
    ensures AnswersRight(answer, handles, ops, long, i)
  {
    FirstCloseOfFront(ops);
    LogOfFront(handles, ops);
    var before, after := LogOf(handles, ops[..|ops| - 1]), LogOf(handles, ops);
    if FirstClose(ops) < |ops| - 1 {
      assert after == before;
    } else {
      assert after[..i + 1] == before[..i + 1];
    }
  }

  lemma LastAnswers(answer: Answers, handles: seq<nat>, ops: seq<Op>)
    requires ops != []
    ensures |Run(answer, handles, ops).1| == |ops|
    ensures AnswersRight(answer, handles, ops, Run(answer, handles, ops).1, |ops| - 1)
  {
    var front, last := ops[..|ops| - 1], ops[|ops| - 1];
    RunLogs(answer, handles, ops);
    RunLogs(answer, handles, front);
    FirstCloseOfFront(ops);
    var log := LogOf(handles, ops);
    if FirstClose(ops) == |ops| {
      assert log[..|log|] == log;
    }
  }

  /**
   Every run, whatever fails: up to the first close the format writer gets the requests in order;
   the first close finalizes it once, then closes every handle once, and reports the first
   failure of these; from then on nothing reaches anybody, further closes succeed and other operations fail.
   */
  lemma RunCloses(answer: Answers, handles: seq<nat>, ops: seq<Op>)
    ensures var (s, results) := Run(answer, handles, ops);
            && s.log == LogOf(handles, ops) && |results| == |ops|
            && forall i | 0 <= i < |ops| :: AnswersRight(answer, handles, ops, results, i)
  {
    RunLogs(answer, handles, ops);
    forall i | 0 <= i < |ops| ensures AnswersRight(answer, handles, ops, Run(answer, handles, ops).1, i) {
      RunAnswers(answer, handles, ops, i);
    }
  }

  /** The event is what the operation asks of the format writer. */
  predicate Asks(op: Op, event: Event) {
    match op
    case Add(key) => event == Added(key)
    case SetMetadata(m) => event == MetadataSet(m)
    case Close => false
  }

  lemma RequestAsks(ops: seq<Op>, k: nat, i: nat)
    requires i < k <= |ops| && !ops[i].Close?
    ensures Asks(ops[i], Requests(ops[..k])[i])
  {
    assert ops[..k][i] == ops[i];
  }

  lemma ClosingAt(handles: seq<nat>, front: seq<Event>, h: nat)
    requires h < |handles|
    ensures (front + ([Finalized] + HandlesClosed(handles)))[|front| + 1 + h] == HandleClosed(handles[h])
  {}

  /**
   Event by event: operation i before the first close, of number k, asks for event i; the close is event k, and
   the closing of handle h, in the order of ownership, event k + 1 + h; there are no other events.
   */
  lemma RunInOrder(answer: Answers, handles: seq<nat>, ops: seq<Op>, k: nat)
    requires k <= |ops| && (forall i | 0 <= i < k :: !ops[i].Close?) && (k < |ops| ==> ops[k].Close?)
    ensures var log := Run(answer, handles, ops).0.log;
            && |log| == (if k < |ops| then k + 1 + |handles| else k)
            && (forall i | 0 <= i < k :: Asks(ops[i], log[i]))
            && (k < |ops| ==> log[k] == Finalized && forall h | 0 <= h < |handles| :: log[k + 1 + h] == HandleClosed(handles[h]))
  {
    RunLogs(answer, handles, ops);
    assert k == FirstClose(ops);
    var log, front := LogOf(handles, ops), Requests(ops[..k]);
    forall i | 0 <= i < k ensures Asks(ops[i], log[i]) {
      RequestAsks(ops, k, i);
    }
    if k < |ops| {
      forall h | 0 <= h < |handles| ensures log[k + 1 + h] == HandleClosed(handles[h]) {
        ClosingAt(handles, front, h);
      }
    }
  }

  lemma FirstCloseOfFront(ops: seq<Op>)
    requires ops != []
    ensures FirstClose(ops[..|ops| - 1]) == if FirstClose(ops) == |ops| then |ops| - 1 else FirstClose(ops)
  {
    var front := ops[..|ops| - 1];
    var a, b := FirstClose(front), FirstClose(ops);
    if a < |front| {
      assert ops[a] == front[a];
    }
    if b < |front| {
      assert front[b] == ops[b];
    }
  }

  /** The number of events of one kind in a log. */
  function Count(log: seq<Event>, e: Event): nat { multiset(log)[e] }

  lemma {:induction false} RequestsFinalizeNothing(ops: seq<Op>, e: Event)
    requires forall i | 0 <= i < |ops| :: !ops[i].Close?
    requires e.Finalized? || e.HandleClosed?
    ensures e !in Requests(ops)
  {
  }

  lemma {:induction false} HandleCount(handles: seq<nat>, h: nat)
    ensures multiset(HandlesClosed(handles))[HandleClosed(h)] == multiset(handles)[h]
    ensures Finalized !in HandlesClosed(handles)
  {
    if handles != [] {
      var front, last := handles[..|handles| - 1], handles[|handles| - 1];
      HandleCount(front, h);
      assert HandlesClosed(handles) == HandlesClosed(front) + [HandleClosed(last)];
      assert handles == front + [last];
    }
  }

  /** Finalized at most once; a handle closed as often as it is owned, and never before the format writer is finalized. */
  lemma ClosedExactlyOnce(answer: Answers, handles: seq<nat>, ops: seq<Op>, h: nat)
    ensures var (s, _) := Run(answer, handles, ops);
            && Count(s.log, Finalized) == (if Close in ops then 1 else 0)
            && Count(s.log, HandleClosed(h)) == (if Close in ops then multiset(handles)[h] else 0)
            && forall i, j | 0 <= i < |s.log| && 0 <= j < |s.log| && s.log[i] == HandleClosed(h) && s.log[j] == Finalized :: j < i
  {
    RunCloses(answer, handles, ops);
    var k := FirstClose(ops);
    var s := Run(answer, handles, ops).0;
    RequestsFinalizeNothing(ops[..k], Finalized);
    RequestsFinalizeNothing(ops[..k], HandleClosed(h));
    HandleCount(handles, h);
    if k == |ops| {
      assert s.log == Requests(ops[..k]);
    } else {
      assert s.log == Requests(ops[..k]) + [Finalized] + HandlesClosed(handles);
    }
  }
}
