/**
 A writer that passes assets on to a base writer and to one writer per overview level. The inner
 writers are not modelled: every call made to one of them is logged, and how it is answered may
 depend on the whole log.
 */
module CompositeWriter {
  import opened Wrappers
  import opened AssetKeys
  import opened StableSort

  datatype Asset = Asset(provider: nat, title: string, description: string, roles: seq<string>)

  datatype RsetWriter = RsetWriter(level: nat, id: nat)

  datatype Target = Base | RSet(writer: RsetWriter)

  datatype Call = AddTo(to: Target, key: string, asset: Asset) | MetadataTo(to: Target, metadata: nat) | CloseOf(to: Target)

  datatype WriterError = Closed | DuplicateKey(key: string) | NoWriter(level: nat) | Inner(code: nat)

  /** Nothing when an operation succeeds. */
  type Failure = Option<WriterError>

  datatype State = State(calls: seq<Call>, metadata: Option<nat>, keys: set<string>, closed: bool)

  datatype Op = Add(key: string, asset: Asset) | SetMetadata(metadata: nat) | Close

  datatype Reply = Reply(calls: seq<Call>, failure: Failure)

  datatype Outcome = Outcome(state: State, results: seq<Failure>)

  function LevelOf(w: RsetWriter): nat { w.level }

  /** The writer registered first for a level. */
  function FirstAt(rsets: seq<RsetWriter>, level: nat): Option<RsetWriter> { FirstWith(LevelOf, rsets, level) }

  datatype Composite = Composite(rsets: seq<RsetWriter>, answer: seq<Call> -> Failure) {

    function All(): seq<Target> {
      [Base] + seq(|rsets|, i requires 0 <= i < |rsets| => RSet(rsets[i]))
    }

    /** The writer an asset goes to and the key it goes under. */
    function Route(key: string): Result<(Target, string), WriterError> {
      match ParseOverviewKey(key)
      case None => Ok((Base, key))
      case Some((parent, level)) =>
        match FirstAt(rsets, level)
        case None => Err(NoWriter(level))
        case Some(w) => Ok((RSet(w), parent))
    }

    function Ask(calls: seq<Call>, call: Call): Reply {
      Reply(calls + [call], answer(calls + [call]))
    }

    /** One call to each target in turn, up to the first that fails. */
    function Broadcast(calls: seq<Call>, make: Target -> Call, targets: seq<Target>): Reply
      decreases |targets|
    {
      if targets == [] then Reply(calls, None)
      else
        var first := Ask(calls, make(targets[0]));
        if first.failure.Some? then first else Broadcast(first.calls, make, targets[1..])
    }

    function Step(s: State, op: Op): (State, Failure) {
      match op
      case Add(key, asset) =>
        if s.closed then (s, Some(Closed))
        else if key in s.keys then (s, Some(DuplicateKey(key)))
        else
          var recorded := s.(keys := s.keys + {key});
          (match Route(key)
           case Err(e) => (recorded, Some(e))
           case Ok((to, inner)) =>
             var reply := Ask(s.calls, AddTo(to, inner, asset));
             (recorded.(calls := reply.calls), reply.failure))
      case SetMetadata(m) =>
        var reply := Broadcast(s.calls, to => MetadataTo(to, m), All());
        (s.(calls := reply.calls, metadata := if reply.failure.None? then Some(m) else s.metadata), reply.failure)
      case Close =>
        if s.closed then (s, None)
        else
          var reply := Broadcast(s.calls, to => CloseOf(to), All());
          (s.(calls := reply.calls, closed := reply.failure.None?), reply.failure)
    }

    /** The first n operations of a run, from a new writer. */
    function Run(ops: seq<Op>, n: nat): (r: Outcome)
      requires n <= |ops|
      ensures |r.results| == n
    {
      if n == 0 then Outcome(State([], None, {}, false), [])
      else
        var before := Run(ops, n - 1);
        var (after, failure) := Step(before.state, ops[n - 1]);
        Outcome(after, before.results + [failure])
    }
  }

  /** Sorted by ascending level, once and for all. */
  function SortByLevel(rsets: seq<RsetWriter>): seq<RsetWriter> { SortBy(LevelOf, rsets) }

  // The writer itself.

  class CompositeDatasetWriter {
    const rsetWriters: seq<RsetWriter>
    const answer: seq<Call> -> Failure
    var calls: seq<Call>
    var metadata: Option<nat>
    var assetKeys: set<string>
    var closed: bool

    function Current(): State
      reads this
    {
      State(calls, metadata, assetKeys, closed)
    }

    function Parts(): Composite { Composite(rsetWriters, answer) }

    constructor (answer: seq<Call> -> Failure, rsetWriters: seq<RsetWriter>)
      ensures Current() == State([], None, {}, false)
      ensures this.answer == answer && this.rsetWriters == SortByLevel(rsetWriters)
    {
      this.answer, this.rsetWriters := answer, SortByLevel(rsetWriters);
      calls, metadata, assetKeys, closed := [], None, {}, false;
    }

    method Ask(call: Call) returns (failure: Failure)
      modifies this`calls
      ensures Reply(calls, failure) == Parts().Ask(old(calls), call)
    {
      calls := calls + [call];
      failure := answer(calls);
    }

    method AddAsset(key: string, asset: Asset) returns (failure: Failure)
      modifies this
      ensures (Current(), failure) == Parts().Step(old(Current()), Add(key, asset))
    {
      if closed {
        return Some(Closed);
      }
      if key in assetKeys {
        return Some(DuplicateKey(key));
      }
      assetKeys := assetKeys + {key};
      match ParseOverviewKey(key) {
        case Some((parent, level)) =>
          match FirstAt(rsetWriters, level) {
            case Some(w) => failure := Ask(AddTo(RSet(w), parent, asset));
            case None => failure := Some(NoWriter(level));
          }
        case None =>
          failure := Ask(AddTo(Base, key, asset));
      }
    }

    method SetMetadata(m: nat) returns (failure: Failure)
      modifies this
      ensures (Current(), failure) == Parts().Step(old(Current()), Op.SetMetadata(m))
    {
      ghost var make := (to: Target) => MetadataTo(to, m);
      ghost var all := Parts().All();
      failure := Ask(MetadataTo(Base, m));
      if failure.Some? {
        return;
      }
      for i := 0 to |rsetWriters|
        invariant metadata == old(metadata) && assetKeys == old(assetKeys) && closed == old(closed)
        invariant failure.None?
        invariant Parts().Broadcast(old(calls), make, all) == Parts().Broadcast(calls, make, all[1 + i..])
      {
        failure := Ask(MetadataTo(RSet(rsetWriters[i]), m));
        if failure.Some? {
          return;
        }
        assert all[1 + i..][1..] == all[2 + i..];
      }
      metadata := Some(m);
    }

    method Close() returns (failure: Failure)
      modifies this
      ensures (Current(), failure) == Parts().Step(old(Current()), Op.Close)
    {
      if closed {
        return None;
      }
      ghost var make := (to: Target) => CloseOf(to);
      ghost var all := Parts().All();
      failure := Ask(CloseOf(Base));
      if failure.Some? {
        return;
      }
      for i := 0 to |rsetWriters|
        invariant metadata == old(metadata) && assetKeys == old(assetKeys) && !closed
        invariant failure.None?
        invariant Parts().Broadcast(old(calls), make, all) == Parts().Broadcast(calls, make, all[1 + i..])
      {
        failure := Ask(CloseOf(RSet(rsetWriters[i])));
        if failure.Some? {
          return;
        }
        assert all[1 + i..][1..] == all[2 + i..];
      }
      closed := true;
    }
  }
}
