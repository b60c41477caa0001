/**
 The life cycle of one block: a sparse map of sub-pieces in memory, one redundant counter per
 piece, a seven-valued state and the flag that asks for the block to be written.
 */
module BlockNodes {
  import opened Bytes

  /** Sub-pieces per piece. */
  const PIECE: nat := 128

  datatype Buffer = Buffer(data: seq<Byte>)

  datatype NodeState = Empty | Downloading | Mem | Saving | Disk | Reading | All

  datatype Node = Node(sub: map<int, Buffer>, counts: seq<nat>, state: NodeState, total: nat, needWrite: bool)

  /** Number of pieces of a block, computed in 32 bits. */
  function Pieces(total: nat): nat {
    (total + PIECE - 1) % 0x1_0000_0000 / PIECE
  }

  function LastCapacity(total: nat): nat
    requires total > 0
  {
    (total - 1) % PIECE + 1
  }

  function Capacity(total: nat, p: nat): nat
    requires total > 0
  {
    if p + 1 == Pieces(total) then LastCapacity(total) else PIECE
  }

  predicate Saved(state: NodeState) {
    state.All? || state.Disk? || state.Reading?
  }

  predicate HasSubPiece(s: Node, i: int) {
    Saved(s.state) || i in s.sub
  }

  predicate IsFull(s: Node) {
    |s.sub| == s.total || Saved(s.state)
  }

  /** The indices of piece `p` that are in memory. */
  ghost function Held(sub: map<int, Buffer>, p: nat): set<int> {
    set i | i in sub && i / PIECE == p
  }

  ghost predicate HoldsEverything(s: Node) {
    forall i: nat :: i < s.total ==> i in s.sub
  }

  /** What every legal call keeps. */
  ghost predicate Inv(s: Node) {
    && 0 < s.total <= 0xFFFF_FF80
    && |s.counts| == Pieces(s.total)
    && (forall i :: i in s.sub ==> 0 <= i < s.total)
    && (forall p :: 0 <= p < |s.counts| ==>
          s.counts[p] == if Saved(s.state) then Capacity(s.total, p) else |Held(s.sub, p)|)
    && (s.state.Empty? ==> s.sub == map[])
    && (s.state.Mem? || s.state.Saving? || s.state.All? <==> HoldsEverything(s))
    && (s.needWrite <==> s.state.Mem?)
  }

  // ---------------------------------------------------------------------------------------
  // The calls, on values

  datatype Op =
    | AddSubpiece(i: nat, buf: Buffer)
    | LoadSubPieceBuffer(i: nat, buf: Buffer)
    | SetBlockReading
    | ClearBlockMemCache(play: nat)
    | GetBufferForSave
    | OnWriteFinish
    | ResetForReDownload

  function New(total: nat, fullDisk: bool): (s: Node)
    requires 0 < total <= 0xFFFF_FF80
    ensures Inv(s)
  {
    var s := Node(map[], seq(Pieces(total), p requires p >= 0 => if fullDisk then Capacity(total, p) else 0),
                  if fullDisk then Disk else Empty, total, false);
    assert 0 !in s.sub && forall p :: Held(s.sub, p) == {};
    s
  }

  function Add(s: Node, i: nat, buf: Buffer): Node
    requires |s.counts| == Pieces(s.total) && i < s.total <= 0xFFFF_FF80
  {
    var state := if s.state.Empty? then Downloading else s.state;
    if i in s.sub then s.(state := state)
    else
      var t := s.(sub := s.sub[i := buf], state := state,
                  counts := s.counts[i / PIECE := s.counts[i / PIECE] + 1]);
      if IsFull(t) && !t.needWrite then t.(needWrite := true, state := Mem) else t
  }

  function Load(s: Node, i: nat, buf: Buffer): Node {
    if i in s.sub then s
    else
      var t := s.(sub := s.sub[i := buf]);
      if |t.sub| == t.total then t.(state := All) else t
  }

  /** How many indices below `i` are in memory. */
  ghost function Before(sub: map<int, Buffer>, i: nat): nat {
    if i == 0 then 0 else Before(sub, i - 1) + if i - 1 in sub then 1 else 0
  }

  /**
   The indices `ClearBlockMemCache` erases. Its loop is bounded by the size of the map it is
   shrinking, so index `i` is reached only while `i` is less than what is left by then.
   */
  ghost function Erased(sub: map<int, Buffer>, play: nat): set<int> {
    set i | i in sub && 0 <= i <= play && i + Before(sub, i) < |sub|
  }

  ghost function Clear(s: Node, play: nat): Node {
    var sub := s.sub - Erased(s.sub, play);
    Node(sub,
         if Saved(s.state) then s.counts else seq(|s.counts|, p requires p >= 0 => |Held(sub, p)|),
         if s.state.All? then Disk else s.state, s.total, s.needWrite)
  }

  function Save(s: Node): Node {
    if !s.needWrite then s
    else match s.state
      case All => s.(needWrite := false, state := Disk, sub := map[])
      case Mem => s.(needWrite := false, state := Saving)
      case _ => s.(needWrite := false)
  }

  function Finish(s: Node): Node {
    if s.state.Saving? then s.(sub := map[], state := Disk) else s
  }

  function Reset(s: Node): Node {
    s.(state := Empty, counts := seq(|s.counts|, p => 0))
  }

  /** One counter per piece; nothing else is needed for a call to be carried out. */
  predicate Shaped(s: Node) {
    s.total <= 0xFFFF_FF80 && |s.counts| == Pieces(s.total)
  }

  ghost function Step(s: Node, op: Op): (t: Node)
    requires Shaped(s) && Asserted(s, op)
    ensures Shaped(t) && t.total == s.total
  {
    match op
    case AddSubpiece(i, buf) => Add(s, i, buf)
    case LoadSubPieceBuffer(i, buf) => Load(s, i, buf)
    case SetBlockReading => if s.state.Disk? then s.(state := Reading) else s
    case ClearBlockMemCache(play) => Clear(s, play)
    case GetBufferForSave => Save(s)
    case OnWriteFinish => Finish(s)
    case ResetForReDownload => Reset(s)
  }

  /** What the source itself asserts at the head of a call. */
  predicate Asserted(s: Node, op: Op) {
    match op
    case AddSubpiece(i, _) => i < s.total
    case LoadSubPieceBuffer(_, _) => s.state.Reading?
    case ResetForReDownload => s.state.Reading?
    case _ => true
  }

  /** What a caller has to see to in addition; by `StepKeepsInvIff` it is exactly what is missing. */
  predicate Careful(s: Node, op: Op) {
    match op
    case AddSubpiece(i, _) => !Saved(s.state) || i in s.sub
    case LoadSubPieceBuffer(i, _) => i < s.total
    case ClearBlockMemCache(_) => !s.state.Mem? && !s.state.Saving?
    case ResetForReDownload => s.sub == map[]
    case _ => true
  }

  // ---------------------------------------------------------------------------------------
  // Counting

  ghost function Range(lo: int, hi: int): (r: set<int>)
    requires lo <= hi
    ensures forall i :: i in r <==> lo <= i < hi
    ensures |r| == hi - lo
    decreases hi - lo
  {
    if lo == hi then {} else Range(lo, hi - 1) + {hi - 1}
  }

  lemma SubsetSize(a: set<int>, b: set<int>)
    requires a <= b
    ensures |a| <= |b|
    ensures |a| == |b| ==> a == b
  {
    assert b == a + (b - a) && |b| == |a| + |b - a|;
  }

  ghost function PieceRange(total: nat, p: nat): set<int>
    requires total > 0
  {
    Range(p * PIECE, p * PIECE + Capacity(total, p))
  }

  lemma InPieceRange(total: nat, p: nat, i: int)
    requires 0 < total <= 0xFFFF_FF80 && p < Pieces(total)
    ensures i in PieceRange(total, p) <==> 0 <= i < total && i / PIECE == p
  {
    var n := Pieces(total);
    assert n == (total + 127) / 128;
    assert total == (n - 1) * 128 + LastCapacity(total);
    assert i / 128 == p <==> p * 128 <= i < p * 128 + 128;
  }

  lemma CountIsFullIff(sub: map<int, Buffer>, total: nat, p: nat, whole: set<int>)
    requires forall i :: i in sub ==> 0 <= i < total
    requires forall i :: i in whole <==> 0 <= i < total && i / PIECE == p
    ensures |Held(sub, p)| <= |whole|
    ensures |Held(sub, p)| == |whole| <==> forall i: nat :: i < total && i / PIECE == p ==> i in sub
  {
    var held := Held(sub, p);
    SubsetSize(held, whole);
    if forall i: nat :: i < total && i / PIECE == p ==> i in sub {
      assert held == whole;
    } else {
      var i: nat :| i < total && i / PIECE == p && i !in sub;
      assert i in whole && i !in held;
    }
  }

  /** A piece's counter reaches its capacity exactly when all of the piece is in memory. */
  lemma PieceFullIff(s: Node, p: nat)
    requires 0 < s.total <= 0xFFFF_FF80 && p < Pieces(s.total)
    requires forall i :: i in s.sub ==> 0 <= i < s.total
    ensures |Held(s.sub, p)| <= Capacity(s.total, p)
    ensures |Held(s.sub, p)| == Capacity(s.total, p) <==> forall i: nat :: i < s.total && i / PIECE == p ==> i in s.sub
  {
    var whole := PieceRange(s.total, p);
    assert |whole| == Capacity(s.total, p);
    forall i
      ensures i in whole <==> 0 <= i < s.total && i / PIECE == p
    {
      InPieceRange(s.total, p, i);
    }
    CountIsFullIff(s.sub, s.total, p, whole);
  }

  /** The size test of `IsFull` sees completeness. */
  lemma SizeIsTotalIff(s: Node)
    requires forall i :: i in s.sub ==> 0 <= i < s.total
    ensures |s.sub| <= s.total
    ensures |s.sub| == s.total <==> HoldsEverything(s)
  {
    assert |s.sub| == |s.sub.Keys|;
    SubsetSize(s.sub.Keys, Range(0, s.total));
    if HoldsEverything(s) {
      assert s.sub.Keys == Range(0, s.total);
    }
  }

  lemma HeldAfterInsert(sub: map<int, Buffer>, i: nat, buf: Buffer, p: nat)
    requires i !in sub
    ensures |Held(sub[i := buf], p)| == |Held(sub, p)| + if i / PIECE == p then 1 else 0
  {
    if i / PIECE == p {
      assert Held(sub[i := buf], p) == Held(sub, p) + {i};
    } else {
      assert Held(sub[i := buf], p) == Held(sub, p);
    }
  }

  lemma HeldAfterErase(sub: map<int, Buffer>, i: int, p: nat)
    requires i in sub
    ensures |Held(sub - {i}, p)| == |Held(sub, p)| - if i / PIECE == p then 1 else 0
  {
    if i / PIECE == p {
      assert Held(sub - {i}, p) == Held(sub, p) - {i};
    } else {
      assert Held(sub - {i}, p) == Held(sub, p);
    }
  }

  // ---------------------------------------------------------------------------------------
  // One step

  lemma AddKeepsInv(s: Node, i: nat, buf: Buffer)
    requires Inv(s) && i < s.total && !Saved(s.state)
    ensures Inv(Add(s, i, buf))
  {
    var t := Add(s, i, buf);
    SizeIsTotalIff(t);
    if i !in s.sub {
      assert !HoldsEverything(s);
      forall p | 0 <= p < |t.counts|
        ensures t.counts[p] == |Held(t.sub, p)|
      {
        HeldAfterInsert(s.sub, i, buf, p);
      }
    }
  }

  lemma AddToSavedBreaksInv(s: Node, i: nat, buf: Buffer)
    requires Inv(s) && i < s.total && Saved(s.state) && i !in s.sub
    ensures !Inv(Add(s, i, buf))
  {
    var t := Add(s, i, buf);
    if Inv(t) {
      PieceFullIff(t, i / PIECE);
    }
  }

  lemma LoadKeepsInvIff(s: Node, i: nat, buf: Buffer)
    requires Inv(s) && s.state.Reading?
    ensures Inv(Load(s, i, buf)) <==> i < s.total
  {
    var t := Load(s, i, buf);
    if i < s.total {
      SizeIsTotalIff(t);
    } else {
      assert i in t.sub;
    }
  }

  lemma ClearKeepsInvIff(s: Node, play: nat)
    requires Inv(s)
    ensures Inv(Clear(s, play)) <==> !s.state.Mem? && !s.state.Saving?
  {
    var t := Clear(s, play);
    assert !HoldsEverything(t) by {
      if HoldsEverything(s) {
        assert 0 in s.sub;
        assert 0 in Erased(s.sub, play) && 0 !in t.sub;
      } else {
        var i: nat :| i < s.total && i !in s.sub;
        assert i !in t.sub;
      }
    }
  }

  lemma FinishKeepsInv(s: Node)
    requires Inv(s)
    ensures Inv(Finish(s))
  {
    if s.state.Saving? {
      forall p | 0 <= p < |s.counts|
        ensures s.counts[p] == Capacity(s.total, p)
      {
        PieceFullIff(s, p);
      }
      assert 0 !in Finish(s).sub;
    }
  }

  lemma ResetKeepsInvIff(s: Node)
    requires Inv(s) && s.state.Reading?
    ensures Inv(Reset(s)) <==> s.sub == map[]
  {
    var t := Reset(s);
    if s.sub == map[] {
      forall p | 0 <= p < |t.counts|
        ensures |Held(t.sub, p)| == 0
      {
        assert Held(t.sub, p) == {};
      }
    }
  }

  /** A call the source's own asserts let through keeps the invariant exactly when it is careful. */
  lemma StepKeepsInvIff(s: Node, op: Op)
    requires Inv(s) && Asserted(s, op)
    ensures Inv(Step(s, op)) <==> Careful(s, op)
  {
    match op
    case AddSubpiece(i, buf) =>
      if !Saved(s.state) {
        AddKeepsInv(s, i, buf);
      } else if i !in s.sub {
        AddToSavedBreaksInv(s, i, buf);
      }
    case LoadSubPieceBuffer(i, buf) => LoadKeepsInvIff(s, i, buf);
    case SetBlockReading =>
    case ClearBlockMemCache(play) => ClearKeepsInvIff(s, play);
    case GetBufferForSave =>
    case OnWriteFinish => FinishKeepsInv(s);
    case ResetForReDownload => ResetKeepsInvIff(s);
  }

  /** Erasing reaches every cached index up to the play point exactly when the last of them is reached. */
  lemma ClearErasesAllIff(sub: map<int, Buffer>, play: nat, last: nat)
    requires last in sub && last <= play
    requires forall i :: i in sub && i <= play ==> 0 <= i <= last
    ensures (forall i :: i in sub && i <= play ==> i in Erased(sub, play))
       <==> last + Before(sub, last) < |sub|
  {
    forall i: nat | i in sub && i <= play
      ensures Before(sub, i) <= Before(sub, last)
    {
      BeforeGrows(sub, i, last);
    }
  }

  lemma {:induction false} BeforeGrows(sub: map<int, Buffer>, i: nat, j: nat)
    requires i <= j
    ensures Before(sub, i) <= Before(sub, j)
    decreases j
  {
    if i < j {
      BeforeGrows(sub, i, j - 1);
    }
  }

  lemma {:induction false} BeforeIsAll(sub: map<int, Buffer>, i: nat)
    requires forall j :: 0 <= j < i ==> j in sub
    ensures Before(sub, i) == i
  {
    if i > 0 {
      BeforeIsAll(sub, i - 1);
    }
  }

  /** On a completely cached block that ends only half of the job. */
  lemma ClearStopsHalfWay(s: Node, play: nat, i: nat)
    requires Inv(s) && HoldsEverything(s) && i < s.total <= play + 1
    ensures i in Clear(s, play).sub <==> s.total <= 2 * i
  {
    SizeIsTotalIff(s);
    BeforeIsAll(s.sub, i);
  }

  // ---------------------------------------------------------------------------------------
  // Whole runs

  /** Calls that the source's own asserts let through, one after the other. */
  ghost predicate AssertedRun(s: Node, ops: seq<Op>)
    requires Shaped(s)
    decreases |ops|
  {
    ops == [] || (Asserted(s, ops[0]) && AssertedRun(Step(s, ops[0]), ops[1..]))
  }

  /** And each of them careful. The invariant is not mentioned. */
  ghost predicate LegalRun(s: Node, ops: seq<Op>): (legal: bool)
    requires Shaped(s)
    ensures legal ==> AssertedRun(s, ops)
    decreases |ops|
  {
    ops == [] || (Asserted(s, ops[0]) && Careful(s, ops[0]) && LegalRun(Step(s, ops[0]), ops[1..]))
  }

  ghost function Run(s: Node, ops: seq<Op>): (t: Node)
    requires Shaped(s) && AssertedRun(s, ops)
    ensures Shaped(t) && t.total == s.total
    decreases |ops|
  {
    if ops == [] then s else Run(Step(s, ops[0]), ops[1..])
  }

  /** Every run of careful calls keeps the invariant. */
  lemma {:induction false} RunKeepsInv(s: Node, ops: seq<Op>)
    requires Inv(s) && LegalRun(s, ops)
    ensures Inv(Run(s, ops))
    decreases |ops|
  {
    hide Step;
    if ops != [] {
      StepKeepsInvIff(s, ops[0]);
      RunKeepsInv(Step(s, ops[0]), ops[1..]);
    }
  }

  /** The invariant holds in every state of a run. */
  ghost predicate Throughout(s: Node, ops: seq<Op>)
    requires Shaped(s) && AssertedRun(s, ops)
    decreases |ops|
  {
    Inv(s) && (ops == [] || Throughout(Step(s, ops[0]), ops[1..]))
  }

  /** And no other run does: it holds in every state exactly when every call was careful. */
  lemma {:induction false} RunKeepsInvIff(s: Node, ops: seq<Op>)
    requires Inv(s) && AssertedRun(s, ops)
    ensures Throughout(s, ops) <==> LegalRun(s, ops)
    decreases |ops|
  {
    hide Step;
    if ops != [] {
      var t := Step(s, ops[0]);
      StepKeepsInvIff(s, ops[0]);
      if Inv(t) {
        RunKeepsInvIff(t, ops[1..]);
      } else {
        assert !Throughout(t, ops[1..]);
      }
    }
  }

  predicate HandsOver(s: Node, op: Op) {
    op.GetBufferForSave? && s.needWrite && s.state.Mem?
  }

  /** How many times a run passes the block to the writer. */
  ghost function HandOvers(s: Node, ops: seq<Op>): nat
    requires Shaped(s) && AssertedRun(s, ops)
    decreases |ops|
  {
    if ops == [] then 0
    else (if HandsOver(s, ops[0]) then 1 else 0) + HandOvers(Step(s, ops[0]), ops[1..])
  }

  predicate WithWriter(state: NodeState) {
    Saved(state) || state.Saving?
  }

  lemma WriterKeepsBlock(s: Node, op: Op)
    requires Inv(s) && Asserted(s, op) && Careful(s, op) && !op.ResetForReDownload?
    ensures WithWriter(s.state) ==> WithWriter(Step(s, op).state) && !HandsOver(s, op)
    ensures HandsOver(s, op) ==> WithWriter(Step(s, op).state)
  {
  }

  /** Without a reset in between, a block goes to the writer at most once, and never if it is already there. */
  lemma {:induction false} HandedOverAtMostOnce(s: Node, ops: seq<Op>)
    requires Inv(s) && LegalRun(s, ops)
    requires ResetForReDownload !in ops
    ensures HandOvers(s, ops) <= if WithWriter(s.state) then 0 else 1
    decreases |ops|
  {
    hide Step;
    if ops != [] {
      assert ops[0] in ops;
      WriterKeepsBlock(s, ops[0]);
      StepKeepsInvIff(s, ops[0]);
      HandedOverAtMostOnce(Step(s, ops[0]), ops[1..]);
    }
  }

  /** The buffer of the first `AddSubpiece` for index `i` in a list of calls. */
  function FirstOffered(ops: seq<Op>, i: nat): (r: seq<Buffer>)
    ensures |r| <= 1
  {
    if ops == [] then []
    else if ops[0].AddSubpiece? && ops[0].i == i then [ops[0].buf]
    else FirstOffered(ops[1..], i)
  }

  ghost predicate Erases(s: Node, op: Op, i: nat) {
    op.ClearBlockMemCache? && i in Erased(s.sub, op.play)
  }

  /** The number of calls up to the last one that erases index `i`; zero when none does. */
  ghost function LastErased(s: Node, ops: seq<Op>, i: nat): (n: nat)
    requires Shaped(s) && AssertedRun(s, ops)
    ensures n <= |ops|
    decreases |ops|
  {
    if ops == [] then 0
    else
      var later := LastErased(Step(s, ops[0]), ops[1..], i);
      if later > 0 then later + 1 else if Erases(s, ops[0], i) then 1 else 0
  }

  /**
   What a block that is being filled holds is, index by index, the first buffer offered since the
   index was last erased, or since the beginning.
   */
  lemma {:induction false} HoldsFirstOffered(s: Node, ops: seq<Op>, i: nat)
    requires Inv(s) && LegalRun(s, ops)
    requires !Saved(s.state) && !s.state.Saving?
    requires HandOvers(s, ops) == 0
    ensures var from := LastErased(s, ops, i);
            var kept := from == 0 && i in s.sub;
            && (i in Run(s, ops).sub <==> kept || FirstOffered(ops[from..], i) != [])
            && (i in Run(s, ops).sub ==>
                  Run(s, ops).sub[i] == if kept then s.sub[i] else FirstOffered(ops[from..], i)[0])
    decreases |ops|
  {
    hide Step;
    if ops != [] {
      var t, rest := Step(s, ops[0]), ops[1..];
      FillingGoesOn(s, ops[0], i);
      StepKeepsInvIff(s, ops[0]);
      HoldsFirstOffered(t, rest, i);
      var later := LastErased(t, rest, i);
      assert rest[later..] == ops[later + 1..];
      assert ops[0..] == ops && rest[0..] == rest;
    }
  }

  lemma FillingGoesOn(s: Node, op: Op, i: nat)
    requires Inv(s) && Asserted(s, op) && Careful(s, op) && !HandsOver(s, op)
    requires !Saved(s.state) && !s.state.Saving?
    ensures var t := Step(s, op);
            && !Saved(t.state) && !t.state.Saving?
            && (i in t.sub <==> (i in s.sub && !Erases(s, op, i)) || (op.AddSubpiece? && op.i == i))
            && (i in t.sub ==> t.sub[i] == if i in s.sub then s.sub[i] else op.buf)
  {
  }

  /** Whatever else is called in between, a buffer in memory was offered for its index in this run. */
  lemma {:induction false} HeldWasOffered(s: Node, ops: seq<Op>, i: nat)
    requires Shaped(s) && AssertedRun(s, ops)
    requires i in Run(s, ops).sub
    ensures (i in s.sub && Run(s, ops).sub[i] == s.sub[i])
         || AddSubpiece(i, Run(s, ops).sub[i]) in ops || LoadSubPieceBuffer(i, Run(s, ops).sub[i]) in ops
    decreases |ops|
  {
    if ops != [] {
      HeldWasOffered(Step(s, ops[0]), ops[1..], i);
    }
  }

  /** A careful reset gives a new block, so every stretch between resets starts like the first. */
  lemma ResetStartsAnew(s: Node)
    requires Inv(s) && Asserted(s, ResetForReDownload) && Careful(s, ResetForReDownload)
    ensures Step(s, ResetForReDownload) == New(s.total, false)
  {
  }

  /** There is only one empty block of a size. */
  lemma EmptyIsNew(s: Node)
    requires Inv(s) && s.state.Empty?
    ensures s == New(s.total, false)
  {
    forall p | 0 <= p < |s.counts|
      ensures s.counts[p] == 0
    {
      assert Held(s.sub, p) == {};
    }
  }

  /**
   The map handed to the writer, in any stretch of calls that begins with an empty block, new or
   reset: exactly `total` entries, each the first buffer offered for its index, counted from the
   last time the index was erased.
   */
  lemma WriterGetsFirstOffered(s: Node, ops: seq<Op>)
    requires Inv(s) && s.state.Empty? && LegalRun(s, ops)
    requires HandOvers(s, ops) == 0
    requires HandsOver(Run(s, ops), GetBufferForSave)
    ensures |Run(s, ops).sub| == s.total
    ensures forall i: nat :: i < s.total ==>
              var since := ops[LastErased(s, ops, i)..];
              && FirstOffered(since, i) != []
              && i in Run(s, ops).sub
              && Run(s, ops).sub[i] == FirstOffered(since, i)[0]
  {
    var t := Run(s, ops);
    RunKeepsInv(s, ops);
    SizeIsTotalIff(t);
    forall i: nat | i < s.total
      ensures var since := ops[LastErased(s, ops, i)..];
              FirstOffered(since, i) != [] && i in t.sub && t.sub[i] == FirstOffered(since, i)[0]
    {
      HoldsFirstOffered(s, ops, i);
    }
  }

  /** Without an erasing call that is the first buffer offered in the whole run. */
  lemma {:induction false} NeverErased(s: Node, ops: seq<Op>, i: nat)
    requires Shaped(s) && AssertedRun(s, ops) && forall op :: op in ops ==> !op.ClearBlockMemCache?
    ensures LastErased(s, ops, i) == 0
    decreases |ops|
  {
    hide Step;
    if ops != [] {
      NeverErased(Step(s, ops[0]), ops[1..], i);
      assert ops[0] in ops;
    }
  }

  // ---------------------------------------------------------------------------------------
  // The next missing sub-piece

  ghost predicate NoneMissing(s: Node, start: nat, end: nat) {
    forall i :: start <= i < end && i < s.total ==> HasSubPiece(s, i)
  }

  ghost predicate FirstMissing(s: Node, start: nat, r: nat) {
    start <= r < s.total && !HasSubPiece(s, r) && NoneMissing(s, start, r)
  }

  /**
   The one start the search mishandles: past the end of the block but still inside the range of
   a last piece that is empty.
   */
  predicate Phantom(s: Node, start: nat) {
    s.total <= start && start / PIECE == |s.counts| - 1 && s.counts[start / PIECE] == 0
  }

  predicate PieceFull(counts: seq<nat>, total: nat, p: nat)
    requires p < |counts| && total > 0
  {
    counts[p] == if p == |counts| - 1 then LastCapacity(total) else PIECE
  }

  lemma EmptyPieceIsMissing(s: Node, start: nat, p: nat)
    requires Inv(s) && start / PIECE <= p < |s.counts| && s.counts[p] == 0
    requires NoneMissing(s, start, p * PIECE)
    ensures var r := if p == start / PIECE then start else p * PIECE;
            FirstMissing(s, start, r) || (Phantom(s, start) && p == start / PIECE)
  {
    var r := if p == start / PIECE then start else p * PIECE;
    assert !Saved(s.state) && r !in Held(s.sub, p);
  }

  lemma SearchStarts(s: Node, start: nat)
    ensures NoneMissing(s, start, start / PIECE * PIECE)
  {
  }

  lemma SearchEnds(s: Node, start: nat, p: nat)
    requires Inv(s) && |s.counts| <= p && NoneMissing(s, start, p * PIECE)
    ensures NoneMissing(s, start, s.total)
  {
  }

  lemma FullPieceIsHeld(s: Node, start: nat, p: nat)
    requires Inv(s) && p < |s.counts| && s.counts[p] == Capacity(s.total, p)
    requires NoneMissing(s, start, p * PIECE)
    ensures NoneMissing(s, start, (p + 1) * PIECE)
  {
    PieceFullIff(s, p);
  }

  lemma PartPieceScanned(s: Node, start: nat, p: nat, found: bool, r: nat)
    requires Inv(s) && start / PIECE <= p < |s.counts| && s.counts[p] != Capacity(s.total, p)
    requires NoneMissing(s, start, p * PIECE)
    requires Scanned(s.sub, s.total, if p == start / PIECE then start else p * PIECE, found, r)
    ensures if found then FirstMissing(s, start, r) else NoneMissing(s, start, s.total) && NoneMissing(s, start, (p + 1) * PIECE)
  {
    assert !Saved(s.state);
  }

  /** The result of looking for the first index from `from` on that is not in memory. */
  ghost predicate Scanned(sub: map<int, Buffer>, total: nat, from: nat, found: bool, r: nat) {
    if found then from <= r < total && r !in sub && forall i :: from <= i < r ==> i in sub
    else forall i :: from <= i < total ==> i in sub
  }

  /** A start past the end with nothing behind it is still answered when it is a phantom, so the search is right exactly elsewhere. */
  lemma PhantomIsNotMissing(s: Node, start: nat)
    requires Inv(s) && Phantom(s, start)
    ensures NoneMissing(s, start, s.total) && !FirstMissing(s, start, start)
  {
  }

  // ---------------------------------------------------------------------------------------
  // What each call is for

  /** A sub-piece that is added is there afterwards, and the block asks to be written once it is complete. */
  lemma AddedIsThere(s: Node, i: nat, buf: Buffer)
    requires Inv(s) && i < s.total && !Saved(s.state)
    ensures var t := Step(s, AddSubpiece(i, buf));
            && (forall j: nat :: HasSubPiece(t, j) <==> HasSubPiece(s, j) || j == i)
            && (forall j :: j in s.sub ==> t.sub[j] == s.sub[j])
            && (i !in s.sub ==> t.sub[i] == buf)
            && (if HoldsEverything(s) then t == s
                else t.state == (if HoldsEverything(t) then Mem else Downloading))
  {
    AddKeepsInv(s, i, buf);
  }

  /** A complete block goes to the writer; no other state is changed by asking. */
  lemma SavingStarts(s: Node)
    requires Inv(s)
    ensures var t := Step(s, GetBufferForSave);
            if s.state.Mem? then t.state.Saving? && !t.needWrite && t.sub == s.sub && t.counts == s.counts else t == s
  {
  }

  /** When the writer is done the block is as one that was on disk from the start; otherwise nothing happens. */
  lemma WritingEnds(s: Node)
    requires Inv(s)
    ensures Step(s, OnWriteFinish) == if s.state.Saving? then New(s.total, true) else s
  {
    FinishKeepsInv(s);
    if s.state.Saving? {
      assert Step(s, OnWriteFinish).counts == New(s.total, true).counts;
    }
  }

  /** Only a block on disk can be read, and being read changes nothing else. */
  lemma ReadingStarts(s: Node)
    requires Inv(s)
    ensures var t := Step(s, SetBlockReading);
            if s.state.Disk? then t.state.Reading? && t.sub == s.sub && t.counts == s.counts && !t.needWrite else t == s
  {
  }

  /** A complete block that is handed over and written can be read, with nothing left in memory. */
  lemma WrittenCanBeRead(s: Node)
    requires Inv(s) && s.state.Mem?
    ensures var ops := [GetBufferForSave, OnWriteFinish, SetBlockReading];
            && LegalRun(s, ops) && Run(s, ops).state.Reading? && Run(s, ops).sub == map[]
            && forall i: nat :: i < s.total ==> HasSubPiece(Run(s, ops), i)
  {
    hide Step;
    var t := Step(s, GetBufferForSave);
    SavingStarts(s);
    StepKeepsInvIff(s, GetBufferForSave);
    WritingEnds(t);
    var u := Step(t, OnWriteFinish);
    NewOnDisk(s.total);
    ReadingStarts(u);
    RunFrom(u, SetBlockReading, []);
    RunFrom(t, OnWriteFinish, [SetBlockReading]);
    RunFrom(s, GetBufferForSave, [OnWriteFinish, SetBlockReading]);
    assert [SetBlockReading] + [] == [SetBlockReading] && [OnWriteFinish] + [SetBlockReading] == [OnWriteFinish, SetBlockReading];
    assert [GetBufferForSave] + [OnWriteFinish, SetBlockReading] == [GetBufferForSave, OnWriteFinish, SetBlockReading];
  }

  /** The buffer of the first load of index `i` in a list of calls. */
  function FirstLoaded(ops: seq<Op>, i: nat): (r: seq<Buffer>)
    ensures |r| <= 1
  {
    if ops == [] then []
    else if ops[0].LoadSubPieceBuffer? && ops[0].i == i then [ops[0].buf]
    else FirstLoaded(ops[1..], i)
  }

  lemma LoadGoesOn(s: Node, op: Op, i: nat)
    requires Inv(s) && s.state.Reading? && op.LoadSubPieceBuffer? && op.i < s.total
    ensures var t := Step(s, op);
            && Inv(t) && (t.state.All? || t.state.Reading?) && t.counts == s.counts
            && (i in t.sub <==> i in s.sub || op.i == i)
            && (i in t.sub ==> t.sub[i] == if i in s.sub then s.sub[i] else op.buf)
  {
    LoadKeepsInvIff(s, op.i, op.buf);
  }

  /**
   Reading a block back: it holds the first buffer loaded for each index, its counters stay, and
   it is in state ALL exactly when everything is there.
   */
  lemma {:induction false} HoldsFirstLoaded(s: Node, ops: seq<Op>, i: nat)
    requires Inv(s) && s.state.Reading? && AssertedRun(s, ops)
    requires forall op :: op in ops ==> op.LoadSubPieceBuffer? && op.i < s.total
    ensures var t := Run(s, ops);
            && t.counts == s.counts && t.state == (if HoldsEverything(t) then All else Reading)
            && (i in t.sub <==> i in s.sub || FirstLoaded(ops, i) != [])
            && (i in t.sub ==> t.sub[i] == if i in s.sub then s.sub[i] else FirstLoaded(ops, i)[0])
    decreases |ops|
  {
    hide Step;
    if ops != [] {
      assert ops[0] in ops;
      var t := Step(s, ops[0]);
      LoadGoesOn(s, ops[0], i);
      if t.state.All? {
        LoadedStops(t, ops[1..]);
        assert forall op :: op in ops[1..] ==> op in ops;
        assert ops[1..] == [];
      } else {
        HoldsFirstLoaded(t, ops[1..], i);
      }
    }
  }

  /** Once everything is loaded, the source's assert lets no further load through. */
  lemma LoadedStops(s: Node, ops: seq<Op>)
    requires Shaped(s) && s.state.All? && AssertedRun(s, ops)
    ensures ops == [] || !ops[0].LoadSubPieceBuffer?
  {
  }

  /** Clearing takes buffers away up to the play point and nothing else; a block that was in ALL is then on DISK. */
  lemma ClearTakesOnlyPlayed(s: Node, play: nat)
    requires Inv(s)
    ensures var t := Step(s, ClearBlockMemCache(play));
            && (forall i :: i in t.sub ==> i in s.sub && t.sub[i] == s.sub[i])
            && (forall i :: i in s.sub && i > play ==> i in t.sub)
            && (0 in s.sub ==> 0 !in t.sub)
            && t.needWrite == s.needWrite && t.state == (if s.state.All? then Disk else s.state)
            && (Saved(s.state) ==> t.counts == s.counts)
  {
    if 0 in s.sub {
      assert Before(s.sub, 0) == 0 && |s.sub.Keys - {0}| + 1 == |s.sub|;
    }
  }

  // ---------------------------------------------------------------------------------------
  // Runs that reach the calls a caller has to avoid

  lemma RunFrom(s: Node, op: Op, rest: seq<Op>)
    requires Shaped(s) && Asserted(s, op) && AssertedRun(Step(s, op), rest)
    ensures AssertedRun(s, [op] + rest) && Run(s, [op] + rest) == Run(Step(s, op), rest)
    ensures LegalRun(s, [op] + rest) <==> Careful(s, op) && LegalRun(Step(s, op), rest)
  {
    assert ([op] + rest)[1..] == rest;
  }

  /** The smallest block has such a start. */
  lemma PhantomIsReached()
    ensures Phantom(New(1, false), 1)
  {
  }

  /** Every block on disk is spoiled by adding any sub-piece to it. */
  lemma AddingToDiskSpoils(total: nat, i: nat, buf: Buffer)
    requires i < total <= 0xFFFF_FF80
    ensures var ops := [AddSubpiece(i, buf)];
            && AssertedRun(New(total, true), ops)
            && !Inv(Run(New(total, true), ops)) && Run(New(total, true), ops).state.Mem?
  {
    RunFrom(New(total, true), AddSubpiece(i, buf), []);
    assert [AddSubpiece(i, buf)] + [] == [AddSubpiece(i, buf)];
    AddToSavedBreaksInv(New(total, true), i, buf);
  }

  /** Every block of two sub-pieces or more can be reset while one of them is loaded. */
  lemma ResettingLoadedSpoils(total: nat, buf: Buffer)
    requires 2 <= total <= 0xFFFF_FF80
    ensures var ops := [SetBlockReading, LoadSubPieceBuffer(0, buf), ResetForReDownload];
            && AssertedRun(New(total, true), ops) && LegalRun(New(total, true), ops[..2])
            && Run(New(total, true), ops).state.Empty? && 0 in Run(New(total, true), ops).sub
            && !Inv(Run(New(total, true), ops))
  {
    var s, load := New(total, true), LoadSubPieceBuffer(0, buf);
    var r := Step(s, SetBlockReading);
    var t := Step(r, load);
    assert t.sub.Keys == {0} && t.state.Reading?;
    RunFrom(t, ResetForReDownload, []);
    RunFrom(r, load, [ResetForReDownload]);
    RunFrom(s, SetBlockReading, [load, ResetForReDownload]);
    RunFrom(r, load, []);
    RunFrom(s, SetBlockReading, [load]);
    var ops := [SetBlockReading, load, ResetForReDownload];
    assert [ResetForReDownload] + [] == [ResetForReDownload] && [load] + [] == [load];
    assert [load] + [ResetForReDownload] == [load, ResetForReDownload];
    assert [SetBlockReading] + [load, ResetForReDownload] == ops && [SetBlockReading] + [load] == ops[..2];
    assert 0 in Reset(t).sub && Reset(t).state.Empty?;
  }

  lemma ClearsFirstOfTwo(t: Node, a: Buffer, b: Buffer)
    requires t.sub == map[0 := a, 1 := b]
    ensures Clear(t, 1).sub == map[1 := b]
  {
    assert |t.sub.Keys| == |{0, 1}|;
    assert Before(t.sub, 0) == 0 && Before(t.sub, 1) == 1;
    assert Erased(t.sub, 1) == {0};
  }

  lemma LoadsTwo(a: Buffer, b: Buffer)
    ensures var s := New(2, true).(state := Reading); var t := Load(s, 0, a); var u := Load(t, 1, b);
            t.state.Reading? && u.sub == map[0 := a, 1 := b] && u.state.All?
  {
    var t := Load(New(2, true).(state := Reading), 0, a);
    assert |t.sub.Keys| == |{0}|;
    assert Load(t, 1, b).sub.Keys == {0, 1};
  }

  /** A block of two that is completely loaded keeps the second when all of it should be cleared. */
  lemma ClearingStopsEarly(a: Buffer, b: Buffer)
    ensures var ops := [SetBlockReading, LoadSubPieceBuffer(0, a), LoadSubPieceBuffer(1, b), ClearBlockMemCache(1)];
            LegalRun(New(2, true), ops) && Run(New(2, true), ops).sub == map[1 := b]
  {
    hide Clear, Load, New;
    var load0, load1, clear := LoadSubPieceBuffer(0, a), LoadSubPieceBuffer(1, b), ClearBlockMemCache(1);
    NewOnDisk(2);
    LoadsTwo(a, b);
    var s := New(2, true);
    var r := Step(s, SetBlockReading);
    var t := Step(r, load0);
    var u := Step(t, load1);
    ClearsFirstOfTwo(u, a, b);
    RunFrom(u, clear, []);
    RunFrom(t, load1, [clear]);
    RunFrom(r, load0, [load1, clear]);
    RunFrom(s, SetBlockReading, [load0, load1, clear]);
    assert [clear] + [] == [clear] && [load1] + [clear] == [load1, clear] && [load0] + [load1, clear] == [load0, load1, clear];
    assert [SetBlockReading] + [load0, load1, clear] == [SetBlockReading, load0, load1, clear];
  }

  lemma NewOnDisk(total: nat)
    requires 0 < total <= 0xFFFF_FF80
    ensures New(total, true).state.Disk? && New(total, true).total == total
  {
  }

  // ---------------------------------------------------------------------------------------
  // The object

  class BlockNode {
    const index: nat
    var subpieces: map<int, Buffer>
    var pieceCount: seq<nat>
    var nodeState: NodeState
    const totalSubpieceCount: nat
    const lastPieceCapacity: nat
    var needWrite: bool

    ghost function State(): Node
      reads this
    {
      Node(subpieces, pieceCount, nodeState, totalSubpieceCount, needWrite)
    }

    ghost predicate Valid()
      reads this
    {
      Inv(State()) && lastPieceCapacity == LastCapacity(totalSubpieceCount)
    }

    constructor (index: nat, subpieceNum: nat, isFullDisk: bool)
      requires 0 < subpieceNum <= 0xFFFF_FF80
      ensures Valid() && State() == New(subpieceNum, isFullDisk) && this.index == index
    {
      this.index, needWrite, subpieces := index, false, map[];
      totalSubpieceCount := subpieceNum;
      lastPieceCapacity := (subpieceNum - 1) % PIECE + 1;
      nodeState := if isFullDisk then Disk else Empty;
      new;
      var n := (subpieceNum + PIECE - 1) / PIECE;
      pieceCount := seq(n, p => 0);
      if isFullDisk {
        for p := 0 to n
          modifies `pieceCount
          invariant |pieceCount| == n
          invariant forall q :: 0 <= q < p ==> pieceCount[q] == Capacity(subpieceNum, q)
        {
          var capacity := if p == n - 1 then lastPieceCapacity else PIECE;
          pieceCount := pieceCount[p := capacity];
        }
      }
      assert pieceCount == New(subpieceNum, isFullDisk).counts;
    }

    predicate IsBlockSavedOnDisk()
      reads this
    {
      Saved(nodeState)
    }

    method AddSubpiece(i: nat, buf: Buffer) returns (added: bool)
      requires Valid() && i < totalSubpieceCount
      modifies this
      ensures State() == Add(old(State()), i, buf)
      ensures added <==> i !in old(subpieces)
      ensures Valid() <==> !Saved(old(nodeState)) || !added
    {
      StepKeepsInvIff(State(), Op.AddSubpiece(i, buf));
      if nodeState == Empty {
        nodeState := Downloading;
      }
      if i in subpieces {
        return false;
      }
      subpieces := subpieces[i := buf];
      pieceCount := pieceCount[i / PIECE := pieceCount[i / PIECE] + 1];
      if (|subpieces| == totalSubpieceCount || IsBlockSavedOnDisk()) && !needWrite {
        needWrite := true;
        nodeState := Mem;
      }
      added := true;
    }

    method LoadSubPieceBuffer(i: nat, buf: Buffer) returns (loaded: bool)
      requires Valid() && nodeState == Reading
      modifies this
      ensures State() == Load(old(State()), i, buf)
      ensures loaded <==> i !in old(subpieces)
      ensures Valid() <==> i < totalSubpieceCount
    {
      StepKeepsInvIff(State(), Op.LoadSubPieceBuffer(i, buf));
      if i in subpieces {
        return false;
      }
      subpieces := subpieces[i := buf];
      if |subpieces| == totalSubpieceCount {
        nodeState := All;
      }
      loaded := true;
    }

    method SetBlockReading() returns (ok: bool)
      requires Valid()
      modifies this
      ensures Valid() && State() == Step(old(State()), Op.SetBlockReading)
      ensures ok <==> old(nodeState) == Disk
    {
      ok := nodeState == Disk;
      if ok {
        nodeState := Reading;
      }
    }

    method ClearBlockMemCache(play: nat)
      requires Valid()
      modifies this
      ensures State() == Clear(old(State()), play)
      ensures Valid() <==> !old(nodeState).Mem? && !old(nodeState).Saving?
    {
      ghost var s := State();
      StepKeepsInvIff(s, Op.ClearBlockMemCache(play));
      subpieces, pieceCount := EraseUpTo(subpieces, pieceCount, IsBlockSavedOnDisk(), play);
      if nodeState == All {
        nodeState := Disk;
      }
      assert State().counts == Clear(s, play).counts;
    }

    /** The erasing loop of `ClearBlockMemCache`. */
    static method EraseUpTo(sub: map<int, Buffer>, counts: seq<nat>, saved: bool, play: nat)
      returns (subpieces: map<int, Buffer>, pieceCount: seq<nat>)
      requires forall i :: i in sub ==> 0 <= i < |counts| * PIECE
      requires !saved ==> Counted(sub, counts)
      ensures subpieces == sub - Erased(sub, play)
      ensures |pieceCount| == |counts|
      ensures if saved then pieceCount == counts else Counted(subpieces, pieceCount)
    {
      hide Counted, Progress, Erased;
      subpieces, pieceCount := sub, counts;
      var sidx := 0;
      ProgressStart(sub);
      while sidx <= play && sidx < |subpieces|
        invariant sidx <= play + 1
        invariant Progress(sub, subpieces, sidx)
        invariant |pieceCount| == |counts|
        invariant if saved then pieceCount == counts else Counted(subpieces, pieceCount)
        decreases play + 1 - sidx
      {
        EraseStep(sub, subpieces, sidx);
        ProgressLeaves(sub, subpieces, sidx);
        if sidx in subpieces {
          if !saved {
            CountsAfterErase(subpieces, pieceCount, sidx);
            pieceCount := pieceCount[sidx / PIECE := pieceCount[sidx / PIECE] - 1];
          }
          subpieces := subpieces - {sidx};
        }
        sidx := sidx + 1;
      }
      EraseEnds(sub, subpieces, sidx, play);
    }

    method GetBufferForSave() returns (bufferSet: map<(nat, nat), Buffer>)
      requires Valid()
      modifies this
      ensures Valid() && State() == Save(old(State()))
      ensures old(needWrite) ==> |old(subpieces)| == totalSubpieceCount
      ensures bufferSet == if !old(needWrite) then map[] else
                map i | 0 <= i < totalSubpieceCount && i in old(subpieces) :: (index, i) := old(subpieces)[i]
    {
      ghost var s := State();
      SizeIsTotalIff(s);
      bufferSet := map[];
      if !needWrite {
        return;
      }
      needWrite := false;
      // the flag is set only in Mem, so that is the case the switch takes
      nodeState := Saving;
      bufferSet := Copy(index, subpieces, totalSubpieceCount);
    }

    static method Copy(index: nat, sub: map<int, Buffer>, total: nat) returns (bufferSet: map<(nat, nat), Buffer>)
      requires |sub| == total && forall i :: 0 <= i < total ==> i in sub
      ensures bufferSet == map i | 0 <= i < total && i in sub :: (index, i) := sub[i]
    {
      bufferSet := map[];
      for sidx := 0 to |sub|
        invariant bufferSet == map i | 0 <= i < sidx && i in sub :: (index, i) := sub[i]
      {
        bufferSet := bufferSet[(index, sidx) := sub[sidx]];
      }
    }

    method OnWriteFinish()
      requires Valid()
      modifies this
      ensures Valid() && State() == Finish(old(State()))
    {
      FinishKeepsInv(State());
      if nodeState == Saving {
        subpieces := map[];
        nodeState := Disk;
      }
    }

    method ResetForReDownload()
      requires Valid() && nodeState == Reading
      modifies this
      ensures State() == Reset(old(State()))
      ensures Valid() <==> old(subpieces) == map[]
    {
      StepKeepsInvIff(State(), Op.ResetForReDownload);
      nodeState := Empty;
      for i := 0 to |pieceCount|
        modifies `pieceCount
        invariant |pieceCount| == |old(pieceCount)|
        invariant forall q :: 0 <= q < i ==> pieceCount[q] == 0
      {
        pieceCount := pieceCount[i := 0];
      }
      assert State().counts == Reset(old(State())).counts;
    }

    /**
     The least missing index from `start` on, found by skipping over whole pieces on the word of
     their counters.
     */
    method GetNextNullSubPiece(start: nat) returns (found: bool, r: nat)
      requires Valid() && totalSubpieceCount < 0x1_0000
      ensures if Phantom(State(), start) then found && r == start
              else if found then FirstMissing(State(), start, r)
              else NoneMissing(State(), start, totalSubpieceCount)
    {
      found, r := Search(State(), subpieces, pieceCount, totalSubpieceCount, start);
    }

    static method Search(ghost s: Node, sub: map<int, Buffer>, counts: seq<nat>, total: nat, start: nat)
      returns (found: bool, r: nat)
      requires Inv(s) && sub == s.sub && counts == s.counts && total == s.total < 0x1_0000
      ensures if Phantom(s, start) then found && r == start
              else if found then FirstMissing(s, start, r)
              else NoneMissing(s, start, total)
    {
      hide NoneMissing, FirstMissing, Scanned, HoldsEverything, Held;
      var startPiece := start / PIECE;
      var pidx := startPiece;
      r := 0;
      SearchStarts(s, start);
      while pidx < |counts|
        invariant startPiece <= pidx
        invariant NoneMissing(s, start, pidx * PIECE)
        invariant Phantom(s, start) ==> pidx == startPiece
      {
        if counts[pidx] == 0 {
          EmptyPieceIsMissing(s, start, pidx);
          r := if pidx == startPiece then start else pidx * PIECE;
          return true, r;
        }
        if PieceFull(counts, total, pidx) {
          FullPieceIsHeld(s, start, pidx);
        } else {
          var sidx := (if startPiece == pidx then start else pidx * PIECE) % 0x1_0000;
          found, r := ScanFrom(sub, total, sidx);
          PartPieceScanned(s, start, pidx, found, r);
          if found {
            return true, r;
          }
        }
        pidx := pidx + 1;
      }
      SearchEnds(s, start, pidx);
      found := false;
    }

    /** The inner scan of the map, in sixteen bits. */
    static method ScanFrom(sub: map<int, Buffer>, total: nat, from: nat) returns (found: bool, r: nat)
      requires total < 0x1_0000
      ensures Scanned(sub, total, from, found, r)
    {
      r := from;
      while r < total
        invariant from <= r
        invariant forall i :: from <= i < r && i < total ==> i in sub
        decreases total - r
      {
        if r !in sub {
          return true, r;
        }
        r := (r + 1) % 0x1_0000;
      }
      found := false;
    }
  }

  ghost predicate Counted(sub: map<int, Buffer>, counts: seq<nat>) {
    forall p :: 0 <= p < |counts| ==> counts[p] == |Held(sub, p)|
  }

  lemma CountsAfterErase(sub: map<int, Buffer>, counts: seq<nat>, i: nat)
    requires Counted(sub, counts) && i in sub && i / PIECE < |counts|
    ensures counts[i / PIECE] > 0
    ensures Counted(sub - {i}, counts[i / PIECE := counts[i / PIECE] - 1])
  {
    assert i in Held(sub, i / PIECE);
    forall p | 0 <= p < |counts|
      ensures |Held(sub - {i}, p)| == counts[p] - if i / PIECE == p then 1 else 0
    {
      HeldAfterErase(sub, i, p);
    }
  }

  /** What is left when the loop has reached `k`: everything below is gone. */
  ghost function Left(sub: map<int, Buffer>, k: int): map<int, Buffer> {
    map i | i in sub && k <= i :: sub[i]
  }

  /** The loop guard held at every index below `k`. */
  ghost predicate Reached(sub: map<int, Buffer>, k: int) {
    forall i: nat :: i < k && i in sub ==> i + Before(sub, i) < |sub|
  }

  ghost predicate Progress(sub: map<int, Buffer>, cur: map<int, Buffer>, k: nat) {
    cur == Left(sub, k) && |cur| == |sub| - Before(sub, k) && Reached(sub, k)
  }

  lemma EraseStep(sub: map<int, Buffer>, cur: map<int, Buffer>, k: nat)
    requires Progress(sub, cur, k) && k < |cur|
    ensures Progress(sub, if k in cur then cur - {k} else cur, k + 1)
  {
    LeftNext(sub, k);
  }

  lemma ProgressStart(sub: map<int, Buffer>)
    requires forall i :: i in sub ==> 0 <= i
    ensures Progress(sub, sub, 0)
  {
    assert Left(sub, 0) == sub;
  }

  lemma ProgressLeaves(sub: map<int, Buffer>, cur: map<int, Buffer>, k: nat)
    requires Progress(sub, cur, k)
    ensures forall i :: i in cur ==> i in sub
  {
  }

  lemma EraseEnds(sub: map<int, Buffer>, cur: map<int, Buffer>, k: nat, play: nat)
    requires (forall i :: i in sub ==> 0 <= i) && Progress(sub, cur, k) && k <= play + 1
    requires k > play || k >= |cur|
    ensures cur == sub - Erased(sub, play)
  {
    ErasedIsBelow(sub, play, k);
  }

  lemma LeftNext(sub: map<int, Buffer>, k: nat)
    ensures k in sub ==> Left(sub, k + 1) == Left(sub, k) - {k} && |Left(sub, k + 1)| == |Left(sub, k)| - 1
    ensures k !in sub ==> Left(sub, k + 1) == Left(sub, k)
  {
    var now, next := Left(sub, k), Left(sub, k + 1);
    if k in sub {
      assert next == now - {k};
      assert next.Keys == now.Keys - {k};
      assert |next.Keys| == |next| && |now.Keys| == |now|;
    }
  }

  /** When the loop stops at `k`, what it erased is what `Erased` says. */
  lemma ErasedIsBelow(sub: map<int, Buffer>, play: nat, k: nat)
    requires forall i :: i in sub ==> 0 <= i
    requires k <= play + 1 && Reached(sub, k)
    requires k > play || k + Before(sub, k) >= |sub|
    ensures Left(sub, k) == sub - Erased(sub, play)
  {
    forall i: nat | i in sub && k <= i <= play
      ensures i !in Erased(sub, play)
    {
      BeforeGrows(sub, k, i);
    }
  }
}
