/**
 Receiving the body of an HTTP response: calls that ask for bytes, reads that complete later,
 and the two offsets that are moved when a read is issued.
 */
module HttpClients {
  import opened Bytes

  /** One buffer given to the listener, with the offsets it was announced at. */
  datatype Chunk = Chunk(data: seq<Byte>, fileOffset: Uint32, contentOffset: Uint32)

  /** What is bound to the completion handler of an outstanding read. */
  datatype Read = Read(length: nat, fileOffset: Uint32, contentOffset: Uint32, prefix: seq<Byte>)

  datatype Result = Success | Eof | Aborted | OtherError

  datatype Event = Recv(length: nat) | Completion(result: Result, data: seq<Byte>) | Closing

  /**
   The outside world: everything the peer sends after the header, the file offset of its first
   byte, how much of it has left the socket, and what the listener was told.
   */
  datatype World = World(wire: seq<Byte>, start: Uint32, taken: nat, delivered: seq<Chunk>, completed: bool,
                         failures: seq<nat>)

  datatype Conn = Conn(connected: bool, requesting: bool, chunked: bool, length: Uint32, offset: Uint32, file: Uint32,
                       response: seq<Byte>, pending: seq<Read>, world: World)

  function Flat(chunks: seq<Chunk>): seq<Byte> {
    if chunks == [] then [] else Flat(chunks[..|chunks| - 1]) + chunks[|chunks| - 1].data
  }

  /** Each chunk is announced where the one before it ended, and carries what the wire has there. */
  ghost predicate Placed(chunks: seq<Chunk>, wire: seq<Byte>, start: Uint32) {
    chunks == [] ||
    (var rest, last := chunks[..|chunks| - 1], chunks[|chunks| - 1];
     && Placed(rest, wire, start)
     && Follows(|Flat(rest)|, last, wire, start))
  }

  ghost predicate Follows(done: nat, c: Chunk, wire: seq<Byte>, start: Uint32) {
    && c.contentOffset == done && c.fileOffset == (start + done) % TWO_32
    && done + |c.data| <= |wire| && c.data == wire[done..done + |c.data|]
  }

  lemma PlacedNext(chunks: seq<Chunk>, wire: seq<Byte>, start: Uint32, c: Chunk)
    ensures Placed(chunks + [c], wire, start) <==> Placed(chunks, wire, start) && Follows(|Flat(chunks)|, c, wire, start)
    ensures Flat(chunks + [c]) == Flat(chunks) + c.data
  {
    assert (chunks + [c])[..|chunks|] == chunks;
  }

  /** So all of them together are a gap-free prefix of what the peer sent. */
  lemma {:induction false} PlacedIsPrefix(chunks: seq<Chunk>, wire: seq<Byte>, start: Uint32)
    requires Placed(chunks, wire, start)
    ensures |Flat(chunks)| <= |wire| && Flat(chunks) == wire[..|Flat(chunks)|]
  {
    if chunks != [] {
      PlacedIsPrefix(chunks[..|chunks| - 1], wire, start);
    }
  }

  // ---------------------------------------------------------------------------------------
  // The invariant

  ghost function Done(w: World): nat {
    |Flat(w.delivered)|
  }

  /** No read outstanding: everything asked for was delivered, and the rest of what was read is kept. */
  ghost predicate Idle(s: Conn) {
    var done := Done(s.world);
    && s.pending == [] && s.offset == done
    && done <= s.world.taken <= |s.world.wire| && s.response == s.world.wire[done..s.world.taken]
  }

  /** A read outstanding: nothing is kept, and the offset stands where the read will end. */
  ghost predicate Waiting(s: Conn) {
    var done := Done(s.world);
    && |s.pending| == 1 && s.response == []
    && s.pending[0].contentOffset == done
    && s.pending[0].fileOffset == (s.world.start + done) % TWO_32
    && done + s.pending[0].length == s.offset
    && |s.pending[0].prefix| < s.pending[0].length
    && done + |s.pending[0].prefix| == s.world.taken <= |s.world.wire|
    && s.pending[0].prefix == s.world.wire[done..s.world.taken]
  }

  ghost predicate Inv(s: Conn) {
    && Placed(s.world.delivered, s.world.wire, s.world.start)
    && Done(s.world) <= s.length
    && (!s.connected ==> !s.requesting)
    && (s.connected ==>
          && s.file == (s.world.start + s.offset) % TWO_32 && s.offset <= s.length
          && if s.requesting then Waiting(s) else Idle(s))
  }

  // ---------------------------------------------------------------------------------------
  // The steps, on values

  /** The header has been read; some of the body may already have come with it. No length means chunked. */
  function Ready(wire: seq<Byte>, early: nat, length: seq<Uint32>, rangeBegin: nat, answeredBegin: Uint32): (s: Conn)
    requires early <= |wire| && |length| <= 1
    ensures Inv(s)
  {
    var start := if rangeBegin != 0 then answeredBegin else 0;
    Conn(true, false, length == [], if length == [] then TWO_32 - 1 else length[0], 0, start, wire[..early], [],
         World(wire, start, early, [], false, []))
  }

  function Give(w: World, c: Chunk): World {
    w.(delivered := w.delivered + [c])
  }

  function Close(s: Conn): Conn {
    s.(connected := false, requesting := false)
  }

  /** Enough bytes at hand: they are delivered at once. */
  function Served(s: Conn, want: nat): Conn
    requires want <= |s.response| && s.offset + want < TWO_32
  {
    s.(response := s.response[want..], file := (s.file + want) % TWO_32, offset := s.offset + want,
       world := Give(s.world, Chunk(s.response[..want], s.file, s.offset)))
  }

  /** Too few: a read is issued for the rest, and the offsets already count it. */
  function Issued(s: Conn, want: nat): Conn
    requires s.offset + want < TWO_32
  {
    s.(response := [], requesting := true, pending := [Read(want, s.file, s.offset, s.response)],
       file := (s.file + want) % TWO_32, offset := s.offset + want)
  }

  function Receive(s: Conn, length: nat): Conn
    requires s.offset + length < TWO_32
  {
    if !s.connected then s
    else if s.offset >= s.length then Close(s.(world := s.world.(completed := true)))
    else
      var want := if s.offset + length > s.length then s.length - s.offset else length;
      if want <= |s.response| then Served(s, want)
      else if s.requesting then s.(response := [])
      else Issued(s, want)
  }

  /** The outstanding read answers: all it was asked for, or less and the reason. */
  ghost predicate Answers(s: Conn, result: Result, data: seq<Byte>) {
    && |s.pending| == 1
    && (s.connected ==>
          && s.world.taken + |data| <= |s.world.wire|
          && data == s.world.wire[s.world.taken..s.world.taken + |data|]
          && |s.pending[0].prefix| + |data| <= s.pending[0].length
          && (result.Success? ==> |s.pending[0].prefix| + |data| == s.pending[0].length)
          && (result.Eof? ==> s.world.taken + |data| == |s.world.wire|))
  }

  function AfterRead(s: Conn, result: Result, data: seq<Byte>): Conn
    requires |s.pending| == 1
  {
    if !s.connected || !s.requesting then s.(pending := [])
    else
      var read := s.pending[0];
      var t := s.(pending := [], requesting := false, world := s.world.(taken := s.world.taken + |data|));
      var w := Give(t.world, Chunk(read.prefix + data, read.fileOffset, read.contentOffset));
      match result
      case Success => t.(world := w)
      case Eof =>
        Close(t.(world := if s.chunked then w.(completed := true) else w.(failures := w.failures + [2])))
      case Aborted => Close(t.(world := t.world.(failures := t.world.failures + [101])))
      case OtherError => Close(t.(world := t.world.(failures := t.world.failures + [1])))
  }

  // ---------------------------------------------------------------------------------------
  // What every step keeps

  /** Asking for nothing while a read is outstanding would announce an empty buffer past the end of that read. */
  predicate Misplaced(s: Conn, length: nat) {
    s.connected && s.requesting && s.offset < s.length && length == 0
  }

  lemma ModAdd(a: int, b: int)
    ensures (a % TWO_32 + b) % TWO_32 == (a + b) % TWO_32
  {
  }

  lemma RecvFromResponse(s: Conn, want: nat)
    requires Inv(s) && s.connected && !s.requesting && want <= |s.response| && s.offset + want <= s.length
    ensures Inv(Served(s, want))
  {
    hide Placed, Flat;
    var w, done := s.world, Done(s.world);
    var c := Chunk(s.response[..want], s.file, s.offset);
    assert c.data == w.wire[done..done + want];
    assert s.response[want..] == w.wire[done + want..w.taken];
    PlacedNext(w.delivered, w.wire, w.start, c);
    ModAdd(w.start + s.offset, want);
  }

  lemma RecvIssuesRead(s: Conn, want: nat)
    requires Inv(s) && s.connected && !s.requesting && |s.response| < want && s.offset + want <= s.length
    ensures Inv(Issued(s, want))
  {
    ModAdd(s.world.start + s.offset, want);
  }

  lemma EmptyChunkMisplaced(s: Conn)
    requires Inv(s) && s.connected && s.requesting
    ensures !Placed(Give(s.world, Chunk([], s.file, s.offset)).delivered, s.world.wire, s.world.start)
  {
    PlacedNext(s.world.delivered, s.world.wire, s.world.start, Chunk([], s.file, s.offset));
  }

  lemma RecvWhileWaiting(s: Conn, length: nat)
    requires Inv(s) && s.connected && s.requesting && s.offset < s.length && s.offset + length < TWO_32
    ensures Inv(Receive(s, length)) <==> length > 0
  {
    if length == 0 {
      assert s.response[..0] == [];
      EmptyChunkMisplaced(s);
    } else {
      assert Receive(s, length) == s;
    }
  }

  lemma RecvWhileIdle(s: Conn, length: nat)
    requires Inv(s) && s.connected && !s.requesting && s.offset < s.length && s.offset + length < TWO_32
    ensures Inv(Receive(s, length))
  {
    hide Inv, Served, Issued;
    var want := if s.offset + length > s.length then s.length - s.offset else length;
    if want <= |s.response| {
      RecvFromResponse(s, want);
    } else {
      RecvIssuesRead(s, want);
    }
  }

  lemma RecvKeepsInvIff(s: Conn, length: nat)
    requires Inv(s) && s.offset + length < TWO_32
    ensures Inv(Receive(s, length)) <==> !Misplaced(s, length)
  {
    if s.connected && s.offset < s.length {
      if s.requesting {
        RecvWhileWaiting(s, length);
      } else {
        RecvWhileIdle(s, length);
      }
    }
  }

  /** What a read brings follows what was delivered before. */
  lemma ReadFollows(s: Conn, data: seq<Byte>)
    requires Inv(s) && s.connected && s.requesting
    requires s.world.taken + |data| <= |s.world.wire| && data == s.world.wire[s.world.taken..s.world.taken + |data|]
    ensures var c := Chunk(s.pending[0].prefix + data, s.pending[0].fileOffset, s.pending[0].contentOffset);
            && Placed(Give(s.world, c).delivered, s.world.wire, s.world.start)
            && Done(Give(s.world, c)) == s.world.taken + |data|
  {
    hide Placed, Flat;
    var w, read := s.world, s.pending[0];
    assert read.prefix + data == w.wire[Done(w)..w.taken + |data|];
    PlacedNext(w.delivered, w.wire, w.start, Chunk(read.prefix + data, read.fileOffset, read.contentOffset));
  }

  lemma ReadKeepsInv(s: Conn, result: Result, data: seq<Byte>)
    requires Inv(s) && Answers(s, result, data)
    ensures Inv(AfterRead(s, result, data))
  {
    if s.connected {
      ReadFollows(s, data);
    }
  }

  // ---------------------------------------------------------------------------------------
  // Whole exchanges

  ghost predicate Enabled(s: Conn, e: Event) {
    match e
    case Recv(length) => s.offset + length < TWO_32 && !Misplaced(s, length)
    case Completion(result, data) => Answers(s, result, data)
    case Closing => true
  }

  ghost function Step(s: Conn, e: Event): Conn
    requires Enabled(s, e)
  {
    match e
    case Recv(length) => Receive(s, length)
    case Completion(result, data) => AfterRead(s, result, data)
    case Closing => Close(s)
  }

  ghost predicate Possible(s: Conn, es: seq<Event>)
    decreases |es|
  {
    es == [] || (Enabled(s, es[0]) && Possible(Step(s, es[0]), es[1..]))
  }

  ghost function Run(s: Conn, es: seq<Event>): Conn
    requires Possible(s, es)
    decreases |es|
  {
    if es == [] then s else Run(Step(s, es[0]), es[1..])
  }

  lemma StepKeepsInv(s: Conn, e: Event)
    requires Inv(s) && Enabled(s, e)
    ensures Inv(Step(s, e))
  {
    match e
    case Recv(length) => RecvKeepsInvIff(s, length);
    case Completion(result, data) => ReadKeepsInv(s, result, data);
    case Closing =>
  }

  lemma StepKeepsSetting(s: Conn, e: Event)
    requires Enabled(s, e)
    ensures Step(s, e).length == s.length && Step(s, e).world.wire == s.world.wire && Step(s, e).world.start == s.world.start
  {
  }

  lemma {:induction false} RunKeepsInv(s: Conn, es: seq<Event>)
    requires Inv(s) && Possible(s, es)
    ensures Inv(Run(s, es))
    ensures Run(s, es).length == s.length && Run(s, es).world.wire == s.world.wire && Run(s, es).world.start == s.world.start
    decreases |es|
  {
    if es != [] {
      var next := Step(s, es[0]);
      StepKeepsInv(s, es[0]);
      StepKeepsSetting(s, es[0]);
      RunKeepsInv(next, es[1..]);
    }
  }

  /**
   Whatever the interleaving of calls and completions: the listener has a gap-free prefix of the
   body, no longer than announced; while connected the two offsets run in step; and an
   outstanding read means that nothing is left in the response buffer. "Complete" means that all
   of the body was delivered, unless it was said by a call that found a read outstanding; and
   then it was not.
   */
  lemma ExchangeIsSafe(wire: seq<Byte>, early: nat, length: seq<Uint32>, begin: nat, answered: Uint32, es: seq<Event>)
    requires early <= |wire| && |length| <= 1
    requires Possible(Ready(wire, early, length, begin, answered), es)
    ensures var t := Run(Ready(wire, early, length, begin, answered), es);
            && Flat(t.world.delivered) <= wire
            && |Flat(t.world.delivered)| <= t.length
            && (length != [] ==> t.length == length[0])
            && (t.connected ==> t.file == (t.world.start + t.offset) % TWO_32)
            && (t.requesting ==> t.response == [])
            && (t.world.completed && !TooEarly(Ready(wire, early, length, begin, answered), es) ==> AllDelivered(t))
            && (TooEarly(Ready(wire, early, length, begin, answered), es) ==> |Flat(t.world.delivered)| < t.length)
  {
    var s := Ready(wire, early, length, begin, answered);
    RunKeepsInv(s, es);
    PlacedIsPrefix(Run(s, es).world.delivered, wire, s.world.start);
    CompletedMeansDelivered(s, es);
  }

  /** "Complete" said by a call is the truth exactly when no read is outstanding. */
  lemma CompletionIsTrueIff(s: Conn, length: nat)
    requires Inv(s) && s.connected && s.offset + length < TWO_32
    requires s.offset >= s.length
    ensures Receive(s, length).world.completed && !Receive(s, length).connected
    ensures Done(Receive(s, length).world) == s.length <==> !s.requesting
  {
  }

  /** "Complete" said at the end of a chunked stream means that all the peer sent was delivered. */
  lemma ChunkedCompletionIsTrue(s: Conn, result: Result, data: seq<Byte>)
    requires Inv(s) && s.connected && Answers(s, result, data) && !s.world.completed
    ensures AfterRead(s, result, data).world.completed <==> result.Eof? && s.chunked
    ensures AfterRead(s, result, data).world.completed ==>
              Flat(AfterRead(s, result, data).world.delivered) == s.world.wire
  {
    var t := AfterRead(s, result, data);
    if t.world.completed {
      ReadKeepsInv(s, result, data);
      var read := s.pending[0];
      PlacedNext(s.world.delivered, s.world.wire, s.world.start, Chunk(read.prefix + data, read.fileOffset, read.contentOffset));
      PlacedIsPrefix(t.world.delivered, s.world.wire, s.world.start);
    }
  }

  /** A call that says "complete" while a read is outstanding. */
  predicate SaysTooEarly(s: Conn, e: Event) {
    e.Recv? && s.connected && s.requesting && s.offset >= s.length
  }

  ghost predicate TooEarly(s: Conn, es: seq<Event>)
    requires Possible(s, es)
    decreases |es|
  {
    es != [] && (SaysTooEarly(s, es[0]) || TooEarly(Step(s, es[0]), es[1..]))
  }

  ghost predicate AllDelivered(s: Conn) {
    Done(s.world) == s.length || (s.chunked && Flat(s.world.delivered) == s.world.wire)
  }

  lemma {:induction false} ClosedIsClosed(s: Conn, es: seq<Event>)
    requires Possible(s, es) && !s.connected
    ensures var t := Run(s, es);
            && !t.connected && !TooEarly(s, es) && t.length == s.length && t.chunked == s.chunked
            && t.world.completed == s.world.completed && t.world.delivered == s.world.delivered && t.world.wire == s.world.wire
    decreases |es|
  {
    if es != [] {
      ClosedIsClosed(Step(s, es[0]), es[1..]);
    }
  }

  lemma StepCompletes(s: Conn, e: Event)
    requires Inv(s) && Enabled(s, e) && !s.world.completed
    ensures SaysTooEarly(s, e) ==> Step(s, e).world.completed && Done(Step(s, e).world) < s.length
    ensures Step(s, e).world.completed ==> !Step(s, e).connected
    ensures Step(s, e).world.completed && !SaysTooEarly(s, e) ==> AllDelivered(Step(s, e))
  {
    match e
    case Recv(length) =>
    case Completion(result, data) =>
      if s.connected {
        ChunkedCompletionIsTrue(s, result, data);
      }
    case Closing =>
  }

  /**
   Whole exchanges that end in "complete": unless some call said so while a read was outstanding,
   the whole body was delivered; and if one did, then not.
   */
  lemma {:induction false} CompletedMeansDelivered(s: Conn, es: seq<Event>)
    requires Inv(s) && Possible(s, es) && !s.world.completed
    ensures Run(s, es).world.completed && !TooEarly(s, es) ==> AllDelivered(Run(s, es))
    ensures TooEarly(s, es) ==> Run(s, es).world.completed && Done(Run(s, es).world) < s.length
    decreases |es|
  {
    hide Inv, Step, Enabled, AllDelivered, SaysTooEarly;
    if es != [] {
      var next := Step(s, es[0]);
      StepKeepsInv(s, es[0]);
      StepKeepsSetting(s, es[0]);
      StepCompletes(s, es[0]);
      if next.world.completed {
        ClosedIsClosed(next, es[1..]);
        SameDelivered(next, Run(next, es[1..]));
      } else {
        CompletedMeansDelivered(next, es[1..]);
      }
    }
  }

  lemma SameDelivered(s: Conn, t: Conn)
    requires t.length == s.length && t.chunked == s.chunked && t.world.delivered == s.world.delivered
    requires t.world.wire == s.world.wire
    ensures AllDelivered(t) <==> AllDelivered(s)
  {
  }

  // ---------------------------------------------------------------------------------------
  // What each step is for

  /** The smaller of what is asked for and what is left of the body. */
  function Wanted(s: Conn, length: nat): nat
    requires s.offset <= s.length
  {
    if length < s.length - s.offset then length else s.length - s.offset
  }

  /** A call on an idle connection before the end: so many bytes are delivered now, or read for. */
  lemma RecvGetsWanted(s: Conn, length: nat)
    requires Inv(s) && s.connected && !s.requesting && s.offset < s.length && s.offset + length < TWO_32
    ensures var t, m := Step(s, Recv(length)), Wanted(s, length);
            && t.connected && t.offset == s.offset + m && t.world.taken == s.world.taken
            && t.world.completed == s.world.completed && t.world.failures == s.world.failures
            && if m <= |s.response| then
                 && !t.requesting && |t.world.delivered| == |s.world.delivered| + 1
                 && s.world.delivered <= t.world.delivered && Done(t.world) == Done(s.world) + m
               else
                 && t.requesting && |t.pending| == 1 && t.pending[0].length == m
                 && t.world.delivered == s.world.delivered
  {
    RecvKeepsInvIff(s, length);
  }

  /** Any other call: on a closed connection nothing, at the end "complete", and during a read that asks for bytes nothing. */
  lemma OtherRecvs(s: Conn, length: nat)
    requires Inv(s) && s.offset + length < TWO_32
    ensures !s.connected ==> Step(s, Recv(length)) == s
    ensures s.connected && s.offset >= s.length ==>
              var t := Step(s, Recv(length));
              !t.connected && t.world == s.world.(completed := true)
    ensures s.connected && s.requesting && s.offset < s.length && length > 0 ==> Step(s, Recv(length)) == s
  {
  }

  /** Closing tells the listener nothing. */
  lemma ClosingOnlyCloses(s: Conn)
    ensures var t := Step(s, Closing); !t.connected && !t.requesting && t.world == s.world
  {
  }

  /**
   The answer to an outstanding read: what came is delivered behind the rest unless the read
   failed; only success leaves the connection open; and the listener hears exactly one verdict.
   */
  lemma ReadIsAnswered(s: Conn, result: Result, data: seq<Byte>)
    requires Inv(s) && s.connected && s.requesting && Answers(s, result, data)
    ensures var t, w := Step(s, Completion(result, data)), s.world;
            && t.connected == result.Success? && !t.requesting && t.pending == []
            && Flat(t.world.delivered) == Flat(w.delivered) +
               (if result.Success? || result.Eof? then s.pending[0].prefix + data else [])
            && t.world.completed == (w.completed || (result.Eof? && s.chunked))
            && t.world.failures == w.failures +
               (match result
                case Success => []
                case Eof => if s.chunked then [] else [2]
                case Aborted => [101]
                case OtherError => [1])
  {
    var read := s.pending[0];
    PlacedNext(s.world.delivered, s.world.wire, s.world.start, Chunk(read.prefix + data, read.fileOffset, read.contentOffset));
  }

  /** All that the calls of a run ask for, as far as they find the connection open and idle. */
  ghost function Asked(s: Conn, es: seq<Event>): nat
    requires Inv(s) && Possible(s, es)
    decreases |es|
  {
    if es == [] then 0
    else
      StepKeepsInv(s, es[0]);
      (if es[0].Recv? && s.connected && !s.requesting then Wanted(s, es[0].length) else 0)
      + Asked(Step(s, es[0]), es[1..])
  }

  lemma StepMovesOffset(s: Conn, e: Event)
    requires Inv(s) && Enabled(s, e) && s.connected && Step(s, e).connected
    ensures Step(s, e).offset == s.offset + if e.Recv? && !s.requesting then Wanted(s, e.length) else 0
  {
    if e.Recv? {
      OtherRecvs(s, e.length);
      if !s.requesting && s.offset < s.length {
        RecvGetsWanted(s, e.length);
      }
    }
  }

  function Outstanding(s: Conn): nat {
    if s.pending == [] then 0 else s.pending[0].length
  }

  /**
   Progress: as long as the connection lasts, what the calls asked for is what has been delivered,
   but for the read that is outstanding.
   */
  lemma {:induction false} DeliveredIsAsked(s: Conn, es: seq<Event>)
    requires Inv(s) && Possible(s, es) && s.connected && !s.requesting && Run(s, es).connected
    ensures var t := Run(s, es);
            && t.offset == s.offset + Asked(s, es)
            && Done(t.world) + Outstanding(t) == Done(s.world) + Asked(s, es)
  {
    OffsetIsAsked(s, es);
    RunKeepsInv(s, es);
  }

  lemma {:induction false} OffsetIsAsked(s: Conn, es: seq<Event>)
    requires Inv(s) && Possible(s, es) && s.connected && Run(s, es).connected
    ensures Run(s, es).offset == s.offset + Asked(s, es)
    decreases |es|
  {
    hide Inv, Step, Enabled, Wanted;
    if es != [] {
      var next := Step(s, es[0]);
      StepKeepsInv(s, es[0]);
      if next.connected {
        StepMovesOffset(s, es[0]);
        OffsetIsAsked(next, es[1..]);
      } else {
        ClosedIsClosed(next, es[1..]);
      }
    }
  }

  /** The listener hears at most one verdict, and none while the connection lasts. */
  ghost predicate OneVerdict(s: Conn) {
    && |s.world.failures| <= 1 && (s.connected ==> s.world.failures == [] && !s.world.completed)
    && (s.world.completed ==> s.world.failures == [])
  }

  lemma {:induction false} VerdictIsFinal(s: Conn, es: seq<Event>)
    requires Possible(s, es) && OneVerdict(s)
    ensures OneVerdict(Run(s, es))
    decreases |es|
  {
    if es != [] {
      VerdictIsFinal(Step(s, es[0]), es[1..]);
    }
  }

  /** The first bytes stand where the answered range begins, if one was asked for, and else at zero. */
  lemma FirstChunkStandsAt(wire: seq<Byte>, early: nat, length: seq<Uint32>, begin: nat, answered: Uint32, m: nat)
    requires m <= early <= |wire| && |length| <= 1 && m < TWO_32 && (length != [] ==> m <= length[0] && length[0] > 0)
    ensures var s := Ready(wire, early, length, begin, answered);
            && OneVerdict(s) && s.chunked == (length == []) && Enabled(s, Recv(m))
            && Step(s, Recv(m)).world.delivered == [Chunk(wire[..m], if begin != 0 then answered else 0, 0)]
  {
    var s := Ready(wire, early, length, begin, answered);
    assert s.response[..m] == wire[..m];
  }

  // ---------------------------------------------------------------------------------------
  // Exchanges that go wrong

  lemma RunOfTwo(s: Conn, a: Event, b: Event)
    requires Enabled(s, a) && Enabled(Step(s, a), b)
    ensures Possible(s, [a, b]) && Run(s, [a, b]) == Step(Step(s, a), b)
  {
    assert [a, b][1..] == [b] && [b][1..] == [];
    var t := Step(s, a);
    assert Possible(Step(t, b), []) && Run(Step(t, b), []) == Step(t, b);
    assert Possible(t, [b]) && Run(t, [b]) == Step(t, b);
  }

  /** Ask for the whole body and ask again before it comes: "complete", and nothing was delivered. */
  lemma CompleteWithNothing(wire: seq<Byte>, n: Uint32, k: nat)
    requires n > 0 && n + k < TWO_32
    ensures var s, es := Ready(wire, 0, [n], 0, 0), [Recv(n), Recv(k)];
            && Possible(s, es) && Run(s, es).world.completed && Run(s, es).world.delivered == []
  {
    RunOfTwo(Ready(wire, 0, [n], 0, 0), Recv(n), Recv(k));
  }

  /** Ask for the first half and then for nothing: an empty buffer is announced where the second half begins. */
  lemma EmptyBufferMisplaced(wire: seq<Byte>, n: Uint32)
    requires 0 < n && 2 * n < TWO_32
    ensures var s := Ready(wire, 0, [2 * n], 0, 0);
            && Enabled(s, Recv(n)) && Misplaced(Step(s, Recv(n)), 0)
            && Receive(Step(s, Recv(n)), 0).world.delivered == [Chunk([], n, n)]
  {
    var t := Step(Ready(wire, 0, [2 * n], 0, 0), Recv(n));
    assert t.response[..0] == [];
  }

  // ---------------------------------------------------------------------------------------
  // The object

  class HttpClient {
    var isConnected: bool
    var isRequesting: bool
    var isChunked: bool
    var contentLength: Uint32
    var contentOffset: Uint32
    var fileOffset: Uint32
    var response: seq<Byte>
    var pending: seq<Read>
    ghost var world: World

    ghost function State(): Conn
      reads this
    {
      Conn(isConnected, isRequesting, isChunked, contentLength, contentOffset, fileOffset, response, pending, world)
    }

    constructor (ghost wire: seq<Byte>, early: seq<Byte>, length: seq<Uint32>, rangeBegin: nat, answeredBegin: Uint32)
      requires early <= wire && |length| <= 1
      ensures State() == Ready(wire, |early|, length, rangeBegin, answeredBegin)
    {
      isConnected, isRequesting := true, false;
      isChunked := length == [];
      contentLength := if length == [] then TWO_32 - 1 else length[0];
      contentOffset := 0;
      fileOffset := if rangeBegin != 0 then answeredBegin else 0;
      response, pending := early, [];
      world := World(wire, if rangeBegin != 0 then answeredBegin else 0, |early|, [], false, []);
    }

    method CloseConnection()
      modifies this
      ensures State() == Close(old(State()))
    {
      isConnected := false;
      isRequesting := false;
    }

    method HttpRecv(length: nat)
      requires contentOffset + length < TWO_32
      modifies this
      ensures State() == Receive(old(State()), length)
    {
      if !isConnected {
        return;
      }
      if contentOffset >= contentLength {
        world := world.(completed := true);
        CloseConnection();
        return;
      }
      var length := length;
      if contentOffset + length > contentLength {
        length := contentLength - contentOffset;
      }
      if length <= |response| {
        var data := response[..length];
        response := response[length..];
        var file, offset := fileOffset, contentOffset;
        fileOffset := (fileOffset + length) % TWO_32;
        contentOffset := contentOffset + length;
        world := Give(world, Chunk(data, file, offset));
      } else {
        var prefix := response;
        response := [];
        if isRequesting {
          return;
        }
        isRequesting := true;
        pending := [Read(length, fileOffset, contentOffset, prefix)];
        fileOffset := (fileOffset + length) % TWO_32;
        contentOffset := contentOffset + length;
      }
    }

    method HandleReadHttp(result: Result, data: seq<Byte>)
      requires |pending| == 1
      modifies this
      ensures State() == AfterRead(old(State()), result, data)
    {
      var read := pending[0];
      pending := [];
      if !isConnected || !isRequesting {
        return;
      }
      isRequesting := false;
      world := world.(taken := world.taken + |data|);
      var buffer := read.prefix + data;
      if result.Success? || result.Eof? {
        world := Give(world, Chunk(buffer, read.fileOffset, read.contentOffset));
      }
      if result.Success? {
        return;
      }
      if result.Aborted? {
        world := world.(failures := world.failures + [101]);
      } else if result.Eof? {
        if !isChunked {
          world := world.(failures := world.failures + [2]);
        } else {
          world := world.(completed := true);
        }
      } else {
        world := world.(failures := world.failures + [1]);
      }
      CloseConnection();
    }
  }
}
