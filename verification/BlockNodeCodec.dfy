/** The configuration-file form of a block: which of its sub-pieces are on disk. */
module BlockNodeCodec {
  import opened Bytes
  import opened BlockNodes

  function Zeros(n: nat): (s: seq<Byte>)
    ensures |s| == n && forall k :: 0 <= k < n ==> s[k] == 0
  {
    seq(n, k => 0)
  }

  // ---------------------------------------------------------------------------------------
  // Writing

  /** A clear bit means "present"; a saved piece is all clear, an unsaved one is the empty bit set. */
  function PieceBuf(saved: bool, count: Uint32): (b: seq<Byte>)
    ensures |b| >= 4
  {
    if saved then Le32(count) + Zeros((count + 31) / 32 * 4) else Zeros(4)
  }

  function Entry(s: Node, p: nat): seq<Byte>
    requires p < |s.counts| && p < 0x1_0000 && s.counts[p] <= PIECE
  {
    var b := PieceBuf(Saved(s.state), s.counts[p]);
    Le16(p) + Le32(|b|) + b
  }

  /** The entries of pieces `p` and up. */
  function Entries(s: Node, p: nat): seq<Byte>
    requires p <= |s.counts| < 0x1_0000 && forall q :: 0 <= q < |s.counts| ==> s.counts[q] <= PIECE
    decreases |s.counts| - p
  {
    if p == |s.counts| then [] else Entry(s, p) + Entries(s, p + 1)
  }

  ghost predicate Writable(s: Node) {
    Inv(s) && |s.counts| < 0x1_0000
  }

  lemma CountsFit(s: Node)
    requires Inv(s)
    ensures forall q :: 0 <= q < |s.counts| ==> s.counts[q] <= PIECE
  {
    forall q | 0 <= q < |s.counts|
      ensures s.counts[q] <= PIECE
    {
      PieceFullIff(s, q);
    }
  }

  ghost function Encode(s: Node): seq<Byte>
    requires Writable(s)
  {
    CountsFit(s);
    Le32(s.total) + Entries(s, 0)
  }

  /** The writing loop; its asserts are the room that the bounds-checking copy demands. */
  method ToBuffer(node: BlockNode) returns (outbuf: seq<Byte>)
    requires node.Valid() && |node.pieceCount| < 0x1_0000
    ensures outbuf == Encode(node.State())
  {
    ghost var s := node.State();
    CountsFit(s);
    outbuf := WriteAll(s, node.totalSubpieceCount, node.pieceCount, node.IsBlockSavedOnDisk());
  }

  method WriteAll(ghost s: Node, total: Uint32, counts: seq<nat>, saved: bool) returns (outbuf: seq<Byte>)
    requires total == s.total && counts == s.counts && saved == Saved(s.state)
    requires |counts| < 0x1_0000 && forall q :: 0 <= q < |counts| ==> counts[q] <= PIECE
    ensures outbuf == Le32(s.total) + Entries(s, 0)
  {
    var capacity := 2 * 1024 * 32;
    outbuf := Le32(total);
    for pidx := 0 to |counts|
      invariant |outbuf| + 512 <= capacity
      invariant outbuf + Entries(s, pidx) == Le32(s.total) + Entries(s, 0)
    {
      EntriesNext(s, pidx, outbuf);
      outbuf := outbuf + Le16(pidx);
      var piecebuf := PieceBuf(saved, counts[pidx]);
      if |outbuf| + |piecebuf| + 1024 > capacity {
        capacity := capacity * 2;
      }
      outbuf := outbuf + Le32(|piecebuf|) + piecebuf;
      assert |outbuf| <= capacity;
    }
  }

  lemma EntriesNext(s: Node, p: nat, out: seq<Byte>)
    requires p < |s.counts| < 0x1_0000 && forall q :: 0 <= q < |s.counts| ==> s.counts[q] <= PIECE
    ensures var b := PieceBuf(Saved(s.state), s.counts[p]);
            out + Entries(s, p) == out + Le16(p) + Le32(|b|) + b + Entries(s, p + 1)
    ensures |PieceBuf(Saved(s.state), s.counts[p])| <= 20
  {
    EntrySize(s, p);
    hide Le16, Le32, PieceBuf;
    var b := PieceBuf(Saved(s.state), s.counts[p]);
    assert Entries(s, p) == Le16(p) + Le32(|b|) + b + Entries(s, p + 1);
    Regroup(out, Le16(p), Le32(|b|), b, Entries(s, p + 1));
  }

  lemma Regroup(out: seq<Byte>, a: seq<Byte>, b: seq<Byte>, c: seq<Byte>, d: seq<Byte>)
    ensures out + (a + b + c + d) == out + a + b + c + d
  {
  }

  // ---------------------------------------------------------------------------------------
  // Reading

  datatype Outcome =
    | Rejected              // the call returns false
    | NoBlock               // true, with a null block
    | Parsed(node: Node)
    | OutOfBounds           // a read or write outside its buffer
    | NeverEnds             // the eight-bit word counter cannot reach its bound

  const POWERS: seq<nat> := [1, 2, 4, 8, 16, 32, 64, 128]

  function Bit(data: seq<Byte>, j: nat): bool
    requires j / 8 < |data|
  {
    data[j / 8] / POWERS[j % 8] % 2 == 1
  }

  /** Every one of `bitcount` bits is stored, and clear. */
  predicate AllPresent(data: seq<Byte>, words: nat, bitcount: nat)
    requires words * 4 <= |data|
  {
    bitcount <= words * 32 && forall j :: 0 <= j < bitcount ==> !Bit(data, j)
  }

  function Finish(end: bool, counts: seq<nat>, total: nat): Outcome {
    if end then Parsed(Node(map[], counts, Disk, total, false)) else NoBlock
  }

  datatype Piece = Bad(outcome: Outcome) | Stop(next: nat) | Store(next: nat, at: nat, bitcount: nat)

  /** One turn of the reading loop at offset `off`. */
  function ReadPiece(data: seq<Byte>, off: nat, pieces: nat): (r: Piece)
    requires off < |data|
    ensures r.Store? ==> off < r.next <= |data| && r.at < pieces
    ensures r.Stop? ==> off < r.next <= |data|
  {
    if off + 6 > |data| then Bad(Rejected)
    else
      var at := De16(data, off);
      var len := De32(data, off + 2);
      if at > pieces || len == 0 || (off + 6 + len) % 0x1_0000_0000 > |data| then Bad(Rejected)
      else if off + 6 + len > |data| then Bad(OutOfBounds)
      else if len < 4 then Bad(Rejected)
      else
        var next := off + 6 + len;
        var bitcount := De32(data, off + 6);
        if bitcount == 0 || len == 4 then Stop(next)
        else if (len - 4) / 4 > 255 then Bad(NeverEnds)
        else if !AllPresent(data[off + 10..next], (len - 4) / 4, bitcount) then Stop(next)
        else if at == pieces then Bad(OutOfBounds)
        else Store(next, at, bitcount)
  }

  function ReadPieces(data: seq<Byte>, off: nat, counts: seq<nat>, total: nat): Outcome
    decreases |data| - off
  {
    if off >= |data| then Finish(true, counts, total)
    else match ReadPiece(data, off, |counts|)
      case Bad(outcome) => outcome
      case Stop(next) => Finish(next == |data|, counts, total)
      case Store(next, at, bitcount) => ReadPieces(data, next, counts[at := bitcount], total)
  }

  function Decode(buf: seq<Byte>): Outcome {
    if |buf| < 4 then Rejected
    else
      var total := De32(buf, 0);
      if total == 0 || |buf| == 4 then NoBlock
      else ReadPieces(buf[4..], 0, seq(Pieces(total), p => 0), total)
  }

  method Parse(buf: seq<Byte>) returns (r: Outcome)
    ensures r == Decode(buf)
  {
    if |buf| < 4 {
      return Rejected;
    }
    var total := De32(buf, 0);
    if total == 0 || |buf| == 4 {
      return NoBlock;
    }
    var data := buf[4..];
    var counts: seq<nat> := seq(Pieces(total), p => 0);
    var offset := 0;
    while offset < |data|
      invariant ReadPieces(data, offset, counts, total) == Decode(buf)
      invariant offset <= |data|
    {
      var piece := ReadPiece(data, offset, |counts|);
      match piece {
        case Bad(outcome) =>
          return outcome;
        case Stop(next) =>
          offset := next;
          break;
        case Store(next, at, bitcount) =>
          counts := counts[at := bitcount];
          offset := next;
      }
    }
    r := Finish(offset >= |data|, counts, total);
  }

  // ---------------------------------------------------------------------------------------
  // Round trips

  /** Where the three parts of an entry stand. */
  lemma EntryLayout(s: Node, p: nat, data: seq<Byte>, off: nat, b: seq<Byte>)
    requires p < |s.counts| < 0x1_0000 && s.counts[p] <= PIECE
    requires Holds(data, off, Entry(s, p)) && b == PieceBuf(Saved(s.state), s.counts[p])
    ensures off + 6 + |b| == off + |Entry(s, p)| <= |data|
    ensures De16(data, off) == p && De32(data, off + 2) == |b|
    ensures Holds(data, off + 6, b)
  {
    var e := Entry(s, p);
    assert e[0..2] == Le16(p) && e[2..6] == Le32(|b|) && e[6..6 + |b|] == b;
    HoldsPart(data, off, e, 0, Le16(p));
    Read16(data, off, p);
    HoldsPart(data, off, e, 2, Le32(|b|));
    Read32(data, off + 2, |b|);
    HoldsPart(data, off, e, 6, b);
  }

  lemma SavedBits(data: seq<Byte>, at: nat, count: Uint32)
    requires Holds(data, at, PieceBuf(true, count))
    ensures De32(data, at) == count
    ensures var n := (count + 31) / 32 * 4; AllPresent(data[at + 4..at + 4 + n], n / 4, count)
  {
    hide Le32, De32;
    var b := PieceBuf(true, count);
    assert b[0..4] == Le32(count);
    HoldsPart(data, at, b, 0, Le32(count));
    Read32(data, at, count);
    var bits := data[at + 4..at + |b|];
    forall k | 0 <= k < |bits|
      ensures bits[k] == 0
    {
      assert data[at..at + |b|][4 + k] == b[4 + k];
    }
  }

  lemma ReadsEntry(s: Node, p: nat, data: seq<Byte>, off: nat)
    requires p < |s.counts| < 0x1_0000 && s.counts[p] <= PIECE && (Saved(s.state) ==> s.counts[p] > 0)
    requires Holds(data, off, Entry(s, p)) && |data| < 0x1_0000_0000
    ensures off < |data|
    ensures ReadPiece(data, off, |s.counts|) ==
            if Saved(s.state) then Store(off + |Entry(s, p)|, p, s.counts[p]) else Stop(off + |Entry(s, p)|)
  {
    hide Le16, Le32, De16, De32, AllPresent, Holds, Entry;
    var b := PieceBuf(Saved(s.state), s.counts[p]);
    EntryLayout(s, p, data, off, b);
    if Saved(s.state) {
      SavedBits(data, off + 6, s.counts[p]);
    } else {
      NoBits();
      Read32(data, off + 6, 0);
    }
  }

  lemma NoBits()
    ensures PieceBuf(false, 0) == Le32(0)
  {
  }

  /** The counters after the first `p` pieces of a saved block have been read back. */
  ghost function ReadUpTo(counts: seq<nat>, p: nat): seq<nat>
    requires p <= |counts|
  {
    counts[..p] + seq(|counts| - p, q => 0)
  }

  lemma ReadUpToNone(counts: seq<nat>)
    ensures ReadUpTo(counts, 0) == seq(|counts|, q => 0)
  {
  }

  lemma ReadUpToNext(counts: seq<nat>, p: nat)
    requires p < |counts|
    ensures |ReadUpTo(counts, p)| == |counts| && ReadUpTo(counts, p)[p := counts[p]] == ReadUpTo(counts, p + 1)
  {
  }

  lemma StoresPiece(data: seq<Byte>, off: nat, counts: seq<nat>, total: nat, r: Piece)
    requires off < |data| && r == ReadPiece(data, off, |counts|) && r.Store?
    ensures ReadPieces(data, off, counts, total) == ReadPieces(data, r.next, counts[r.at := r.bitcount], total)
  {
  }

  lemma SplitsAt(data: seq<Byte>, off: nat, first: seq<Byte>, rest: seq<Byte>)
    requires off <= |data| && data[off..] == first + rest
    ensures Holds(data, off, first) && data[off + |first|..] == rest
  {
    assert data[off..off + |first|] == data[off..][..|first|];
    assert data[off + |first|..] == data[off..][|first|..];
  }

  lemma ReadsSavedEntry(s: Node, p: nat, data: seq<Byte>, off: nat)
    requires Saved(s.state) && p < |s.counts| < 0x1_0000 && 0 < s.counts[p] <= PIECE
    requires Holds(data, off, Entry(s, p)) && |data| < 0x1_0000_0000
    ensures ReadPieces(data, off, ReadUpTo(s.counts, p), s.total)
         == ReadPieces(data, off + |Entry(s, p)|, ReadUpTo(s.counts, p + 1), s.total)
  {
    hide ReadPiece, ReadPieces, ReadUpTo, Entry, Holds;
    ReadsEntry(s, p, data, off);
    ReadUpToNext(s.counts, p);
    StoresPiece(data, off, ReadUpTo(s.counts, p), s.total, Store(off + |Entry(s, p)|, p, s.counts[p]));
  }

  lemma {:induction false} ReadsSavedEntries(s: Node, p: nat, data: seq<Byte>, off: nat)
    requires Saved(s.state) && p <= |s.counts| < 0x1_0000
    requires forall q :: 0 <= q < |s.counts| ==> 0 < s.counts[q] <= PIECE
    requires off <= |data| < 0x1_0000_0000 && data[off..] == Entries(s, p)
    ensures ReadPieces(data, off, ReadUpTo(s.counts, p), s.total)
         == ReadPieces(data, |data|, s.counts, s.total)
    decreases |s.counts| - p
  {
    hide ReadPieces, Entry, Holds;
    if p == |s.counts| {
      assert ReadUpTo(s.counts, p) == s.counts;
    } else {
      hide ReadUpTo;
      SplitsAt(data, off, Entry(s, p), Entries(s, p + 1));
      ReadsSavedEntry(s, p, data, off);
      ReadsSavedEntries(s, p + 1, data, off + |Entry(s, p)|);
    }
  }

  lemma EntrySize(s: Node, p: nat)
    requires p < |s.counts| < 0x1_0000 && s.counts[p] <= PIECE
    ensures 10 <= |Entry(s, p)| <= 26
  {
  }

  lemma {:induction false} EntriesShort(s: Node, p: nat)
    requires p <= |s.counts| < 0x1_0000
    requires forall q :: 0 <= q < |s.counts| ==> s.counts[q] <= PIECE
    ensures 10 * (|s.counts| - p) <= |Entries(s, p)| <= 26 * (|s.counts| - p)
    decreases |s.counts| - p
  {
    if p < |s.counts| {
      EntriesShort(s, p + 1);
      EntrySize(s, p);
      assert |Entries(s, p)| == |Entry(s, p)| + |Entries(s, p + 1)|;
    }
  }

  lemma DecodesEntries(buf: seq<Byte>, total: Uint32, data: seq<Byte>)
    requires buf == Le32(total) + data && total > 0 && |data| > 0
    ensures Decode(buf) == ReadPieces(data, 0, seq(Pieces(total), p => 0), total)
  {
    assert buf[0..4] == Le32(total) && buf[4..] == data;
    Read32(buf, 0, total);
  }

  /** A saved block comes back as a block on disk with the same size and full counters, and nothing cached. */
  lemma SavedRoundTrip(s: Node)
    requires Writable(s) && Saved(s.state)
    ensures Decode(Encode(s)) == Parsed(New(s.total, true))
  {
    hide Le32, Entry, ReadPiece, ReadUpTo;
    CountsFit(s);
    assert s.counts == New(s.total, true).counts;
    EntriesShort(s, 0);
    DecodesEntries(Encode(s), s.total, Entries(s, 0));
    ReadUpToNone(s.counts);
    ReadsSavedEntries(s, 0, Entries(s, 0), 0);
  }

  /**
   A block that is not saved is dropped exactly when it has two pieces or more. With a single
   piece the early exit is also the end of the data, and a block on disk comes back whose only
   counter is zero.
   */
  lemma UnsavedRoundTrip(s: Node)
    requires Writable(s) && !Saved(s.state)
    ensures Decode(Encode(s)) == if |s.counts| >= 2 then NoBlock else Parsed(Node(map[], [0], Disk, s.total, false))
    ensures |s.counts| < 2 ==> !Inv(Decode(Encode(s)).node)
  {
    CountsFit(s);
    EntriesShort(s, 1);
    var data := Entries(s, 0);
    DecodesEntries(Encode(s), s.total, data);
    assert data[0..|Entry(s, 0)|] == Entry(s, 0);
    ReadsEntry(s, 0, data, 0);
    if |s.counts| < 2 {
      assert seq(Pieces(s.total), p => 0) == [0];
      assert Capacity(s.total, 0) > 0;
    }
  }

  // ---------------------------------------------------------------------------------------
  // Any buffer at all: which entries are read, where the reader leaves its buffers, what it builds

  function IndexAt(data: seq<Byte>, off: nat): nat
    requires off + 6 <= |data|
  {
    De16(data, off)
  }

  /** Where the entry at `off` ends, in unbounded arithmetic. */
  function EndAt(data: seq<Byte>, off: nat): nat
    requires off + 6 <= |data|
  {
    off + 6 + De32(data, off + 2)
  }

  function WordsAt(data: seq<Byte>, off: nat): nat
    requires off + 6 <= |data|
  {
    if EndAt(data, off) < off + 10 then 0 else (EndAt(data, off) - off - 10) / 4
  }

  /** The entry at `off` lies inside the data, and its words say that some sub-pieces are all present. */
  ghost predicate Present(data: seq<Byte>, off: nat) {
    && off + 10 < EndAtOr(data, off) <= |data|
    && De32(data, off + 6) > 0
    && AllPresent(data[off + 10..EndAt(data, off)], WordsAt(data, off), De32(data, off + 6))
  }

  /** Zero without the six bytes in front of an entry. */
  ghost function EndAtOr(data: seq<Byte>, off: nat): nat {
    if off + 6 <= |data| then EndAt(data, off) else 0
  }

  /** An entry that is read into a counter. */
  ghost predicate Good(data: seq<Byte>, off: nat, pieces: nat) {
    Present(data, off) && IndexAt(data, off) < pieces && WordsAt(data, off) <= 255
  }

  /** The offsets of the entries read into counters, one behind the other from `off` on. */
  ghost function Walk(data: seq<Byte>, off: nat, pieces: nat): seq<nat>
    decreases |data| - off
  {
    if Good(data, off, pieces) then [off] + Walk(data, EndAt(data, off), pieces) else []
  }

  /** Where that comes to an end: at the end of the data or at an entry that is not good. */
  ghost function WalkEnd(data: seq<Byte>, off: nat, pieces: nat): (end: nat)
    ensures !Good(data, end, pieces)
    decreases |data| - off
  {
    if Good(data, off, pieces) then WalkEnd(data, EndAt(data, off), pieces) else off
  }

  /**
   What makes an entry dangerous: the sum of offset and length wraps around in 32 bits and passes
   for a small one; more words than the eight-bit counter can count; or a complete piece whose
   index is one too large. An index that is larger still is refused.
   */
  ghost predicate Dangerous(data: seq<Byte>, off: nat, pieces: nat) {
    && off + 6 <= |data| && IndexAt(data, off) <= pieces
    && if EndAt(data, off) > |data| then EndAt(data, off) % 0x1_0000_0000 <= |data|
       else EndAt(data, off) > off + 10 && De32(data, off + 6) > 0
            && (WordsAt(data, off) > 255 || (IndexAt(data, off) == pieces && Present(data, off)))
  }

  predicate Misbehaves(r: Outcome) {
    r.OutOfBounds? || r.NeverEnds?
  }

  lemma GoodIsStored(data: seq<Byte>, off: nat, pieces: nat)
    requires off < |data| < 0x1_0000_0000
    ensures Good(data, off, pieces) ==> off + 10 < EndAtOr(data, off) <= |data| && IndexAt(data, off) < pieces
    ensures Good(data, off, pieces) <==> ReadPiece(data, off, pieces).Store?
    ensures Good(data, off, pieces) ==>
              ReadPiece(data, off, pieces) == Store(EndAt(data, off), IndexAt(data, off), De32(data, off + 6))
    ensures Dangerous(data, off, pieces) <==>
              ReadPiece(data, off, pieces).Bad? && Misbehaves(ReadPiece(data, off, pieces).outcome)
    ensures ReadPiece(data, off, pieces).Bad? ==> !ReadPiece(data, off, pieces).outcome.Parsed?
  {
    hide AllPresent;
  }

  lemma {:induction false} WalkMisbehavesIff(data: seq<Byte>, off: nat, counts: seq<nat>, total: nat)
    requires off <= |data| < 0x1_0000_0000
    ensures Misbehaves(ReadPieces(data, off, counts, total)) <==> Dangerous(data, WalkEnd(data, off, |counts|), |counts|)
    decreases |data| - off
  {
    hide ReadPiece, Good, Dangerous;
    if off < |data| {
      GoodIsStored(data, off, |counts|);
      if Good(data, off, |counts|) {
        var at, bits := IndexAt(data, off), De32(data, off + 6);
        WalkMisbehavesIff(data, EndAt(data, off), counts[at := bits], total);
      }
    } else {
      NothingThere(data, |counts|);
    }
  }

  lemma NothingThere(data: seq<Byte>, pieces: nat)
    ensures !Good(data, |data|, pieces) && !Dangerous(data, |data|, pieces)
  {
  }

  /**
   Exactly which buffers make the reader leave its buffers or run forever: those in which the
   first entry that is not read into a counter is dangerous.
   */
  lemma ParseMisbehavesIff(buf: seq<Byte>)
    requires |buf| < 0x1_0000_0000
    ensures Misbehaves(Decode(buf)) <==>
            && |buf| > 4 && De32(buf, 0) > 0
            && var pieces := Pieces(De32(buf, 0)); Dangerous(buf[4..], WalkEnd(buf[4..], 0, pieces), pieces)
  {
    hide Dangerous, ReadPieces, WalkEnd;
    if |buf| > 4 && De32(buf, 0) > 0 {
      var total := De32(buf, 0);
      WalkMisbehavesIff(buf[4..], 0, seq(Pieces(total), p => 0), total);
    }
  }

  /** An entry that is refused: cut off, for a piece that does not exist, or of an impossible length. */
  ghost predicate Refused(data: seq<Byte>, off: nat, pieces: nat) {
    || off + 6 > |data| || IndexAt(data, off) > pieces || EndAt(data, off) == off + 6
    || EndAt(data, off) % 0x1_0000_0000 > |data| || (EndAt(data, off) <= |data| && EndAt(data, off) < off + 10)
  }

  /** An entry behind which reading simply stops: it says that sub-pieces are missing. */
  ghost predicate Stops(data: seq<Byte>, off: nat, pieces: nat) {
    off < |data| && !Refused(data, off, pieces) && !Dangerous(data, off, pieces) && !Good(data, off, pieces)
  }

  lemma EntryAnswers(data: seq<Byte>, off: nat, pieces: nat)
    requires off < |data| < 0x1_0000_0000
    ensures ReadPiece(data, off, pieces) == Bad(Rejected) <==> Refused(data, off, pieces)
    ensures Stops(data, off, pieces) ==>
              off + 6 < EndAtOr(data, off) <= |data| && ReadPiece(data, off, pieces) == Stop(EndAt(data, off))
    ensures !Stops(data, off, pieces) ==> !ReadPiece(data, off, pieces).Stop?
    ensures ReadPiece(data, off, pieces).Bad? ==>
              var r := ReadPiece(data, off, pieces).outcome; r.Rejected? || r.OutOfBounds? || r.NeverEnds?
    ensures ReadPiece(data, off, pieces) == Bad(NeverEnds) <==>
              Dangerous(data, off, pieces) && EndAt(data, off) <= |data| && WordsAt(data, off) > 255
  {
    hide AllPresent;
  }

  lemma {:induction false} WalkAnswers(data: seq<Byte>, off: nat, counts: seq<nat>, total: nat)
    requires off <= |data| < 0x1_0000_0000
    ensures var e, r := WalkEnd(data, off, |counts|), ReadPieces(data, off, counts, total);
            && e <= |data|
            && (r.Rejected? <==> e < |data| && Refused(data, e, |counts|))
            && (r.NoBlock? <==> Stops(data, e, |counts|) && EndAtOr(data, e) < |data|)
            && (r.Parsed? <==> e == |data| || (Stops(data, e, |counts|) && EndAtOr(data, e) == |data|))
            && (r.NeverEnds? <==> Dangerous(data, e, |counts|) && EndAtOr(data, e) <= |data| && WordsAt(data, e) > 255)
    decreases |data| - off
  {
    hide ReadPiece, Good, Dangerous, Refused, Stops;
    if off < |data| {
      GoodIsStored(data, off, |counts|);
      EntryAnswers(data, off, |counts|);
      if Good(data, off, |counts|) {
        var at, bits := IndexAt(data, off), De32(data, off + 6);
        WalkAnswers(data, EndAt(data, off), counts[at := bits], total);
      } else {
        DangerIsInside(data, off, |counts|);
      }
    } else {
      NothingThere(data, |counts|);
      NothingStops(data, |counts|);
    }
  }

  lemma DangerIsInside(data: seq<Byte>, off: nat, pieces: nat)
    ensures Dangerous(data, off, pieces) ==> off + 6 <= |data|
    ensures Dangerous(data, off, pieces) ==> !Refused(data, off, pieces) && !Stops(data, off, pieces)
  {
    hide AllPresent;
  }

  lemma NothingStops(data: seq<Byte>, pieces: nat)
    ensures !Stops(data, |data|, pieces)
  {
  }

  /**
   What the reader answers to any buffer: it refuses one that is too short or whose first entry
   that is not good is refused; it gives no block for an empty one, or when it has to stop with
   something left; and it gives a block when it comes to the end exactly.
   */
  lemma ParseAnswers(buf: seq<Byte>)
    requires |buf| < 0x1_0000_0000
    ensures Decode(buf).Rejected? <==>
            |buf| < 4 || (&& |buf| > 4 && De32(buf, 0) > 0
                          && var data, pieces := buf[4..], Pieces(De32(buf, 0)); var e := WalkEnd(data, 0, pieces);
                          e < |data| && Refused(data, e, pieces))
    ensures Decode(buf).NoBlock? <==>
            && |buf| >= 4
            && (|| |buf| == 4 || De32(buf, 0) == 0
                || (var data, pieces := buf[4..], Pieces(De32(buf, 0)); var e := WalkEnd(data, 0, pieces);
                    Stops(data, e, pieces) && EndAtOr(data, e) < |data|))
    ensures Decode(buf).Parsed? <==>
            && |buf| > 4 && De32(buf, 0) > 0
            && var data, pieces := buf[4..], Pieces(De32(buf, 0)); var e := WalkEnd(data, 0, pieces);
            e == |data| || (Stops(data, e, pieces) && EndAtOr(data, e) == |data|)
  {
    hide Dangerous, ReadPieces, WalkEnd, Refused, Stops;
    if |buf| > 4 && De32(buf, 0) > 0 {
      var total := De32(buf, 0);
      WalkAnswers(buf[4..], 0, seq(Pieces(total), p => 0), total);
    }
  }

  /** The bytes of the smallest saved block and of the smallest unsaved one. */
  lemma BytesOfSmallest()
    ensures Encode(New(1, true)) == [1, 0, 0, 0, 0, 0, 8, 0, 0, 0, 1, 0, 0, 0, 0, 0, 0, 0]
    ensures Encode(New(1, false)) == [1, 0, 0, 0, 0, 0, 4, 0, 0, 0, 0, 0, 0, 0]
  {
    hide Encode, Entry, New;
    NewOfOne(true);
    NewOfOne(false);
    OnePiece(New(1, true));
    OnePiece(New(1, false));
    FirstEntry(New(1, true));
    FirstEntry(New(1, false));
    assert Le32(1) == [1, 0, 0, 0];
  }

  lemma NewOfOne(fullDisk: bool)
    ensures var s := New(1, fullDisk);
            s.counts == [if fullDisk then 1 else 0] && s.total == 1 && Saved(s.state) == fullDisk
  {
  }

  lemma OnePiece(s: Node)
    requires Writable(s) && |s.counts| == 1
    ensures s.counts[0] <= PIECE && Encode(s) == Le32(s.total) + Entry(s, 0)
  {
    hide Entry, Le32;
    CountsFit(s);
    assert Entries(s, 1) == [];
    assert Entries(s, 0) == Entry(s, 0) + [] == Entry(s, 0);
  }

  lemma FirstEntry(s: Node)
    requires s.counts == [if Saved(s.state) then 1 else 0]
    ensures Entry(s, 0) == [0, 0] + (if Saved(s.state) then [8, 0, 0, 0, 1, 0, 0, 0, 0, 0, 0, 0] else [4, 0, 0, 0, 0, 0, 0, 0])
  {
    var b := PieceBuf(Saved(s.state), s.counts[0]);
    assert Le16(0) == [0, 0] && Le32(1) == [1, 0, 0, 0] && Le32(8) == [8, 0, 0, 0] && Le32(4) == [4, 0, 0, 0];
    assert Zeros(4) == [0, 0, 0, 0];
    assert b == if Saved(s.state) then [1, 0, 0, 0, 0, 0, 0, 0] else [0, 0, 0, 0];
  }

  ghost predicate Inside(data: seq<Byte>, walk: seq<nat>) {
    forall k :: 0 <= k < |walk| ==> walk[k] + 10 <= |data|
  }

  /** The counter of piece `p` as the last good entry for it has it; `was` when there is none. */
  ghost function CountOf(data: seq<Byte>, walk: seq<nat>, p: nat, was: nat): nat
    requires Inside(data, walk)
  {
    if walk == [] then was
    else
      var o := walk[|walk| - 1];
      if IndexAt(data, o) == p then De32(data, o + 6) else CountOf(data, walk[..|walk| - 1], p, was)
  }

  lemma {:induction false} WalkInside(data: seq<Byte>, off: nat, pieces: nat)
    ensures Inside(data, Walk(data, off, pieces))
    decreases |data| - off
  {
    hide AllPresent;
    if Good(data, off, pieces) {
      WalkInside(data, EndAt(data, off), pieces);
    }
  }

  /** Taking the first entry into account before the others or after them is the same. */
  lemma {:induction false} CountOfFirst(data: seq<Byte>, first: nat, rest: seq<nat>, p: nat, was: nat)
    requires first + 10 <= |data| && Inside(data, rest)
    ensures CountOf(data, [first] + rest, p, was) ==
            CountOf(data, rest, p, if IndexAt(data, first) == p then De32(data, first + 6) else was)
    decreases |rest|
  {
    hide De32, IndexAt;
    if rest == [] {
      assert [first] + rest == [first] && [first][..0] == [];
    } else {
      CountOfFirst(data, first, rest[..|rest| - 1], p, was);
      assert ([first] + rest)[..|rest|] == [first] + rest[..|rest| - 1];
    }
  }

  lemma {:induction false} WalkCounts(data: seq<Byte>, off: nat, counts: seq<nat>, total: nat)
    requires off <= |data| < 0x1_0000_0000 && Inside(data, Walk(data, off, |counts|))
    requires ReadPieces(data, off, counts, total).Parsed?
    ensures var node := ReadPieces(data, off, counts, total).node;
            && |node.counts| == |counts| && node == Node(map[], node.counts, Disk, total, false)
            && forall p :: 0 <= p < |counts| ==> node.counts[p] == CountOf(data, Walk(data, off, |counts|), p, counts[p])
    decreases |data| - off
  {
    hide ReadPiece, Good, CountOf;
    if off < |data| {
      GoodIsStored(data, off, |counts|);
    } else {
      NothingThere(data, |counts|);
    }
    if Good(data, off, |counts|) {
      var at, bits, rest := IndexAt(data, off), De32(data, off + 6), Walk(data, EndAt(data, off), |counts|);
      WalkInside(data, EndAt(data, off), |counts|);
      WalkCounts(data, EndAt(data, off), counts[at := bits], total);
      forall p | 0 <= p < |counts|
        ensures CountOf(data, [off] + rest, p, counts[p]) == CountOf(data, rest, p, counts[at := bits][p])
      {
        CountOfFirst(data, off, rest, p, counts[p]);
      }
    } else {
      forall p | 0 <= p < |counts|
        ensures CountOf(data, [], p, counts[p]) == counts[p]
      {
        CountOfNone(data, p, counts[p]);
      }
    }
  }

  lemma CountOfNone(data: seq<Byte>, p: nat, was: nat)
    ensures CountOf(data, [], p, was) == was
  {
  }

  /**
   A block that comes out of any buffer satisfies the invariant exactly when its size is one a
   block can have and, for every piece, the last good entry read for it carries its capacity.
   */
  lemma ParsedIsValidIff(buf: seq<Byte>)
    requires |buf| < 0x1_0000_0000 && Decode(buf).Parsed?
    ensures |buf| > 4 && De32(buf, 0) > 0
    ensures var data, total := buf[4..], De32(buf, 0); var walk := Walk(data, 0, Pieces(total));
            && Inside(data, walk)
            && (Inv(Decode(buf).node) <==>
                total <= 0xFFFF_FF80 && forall p: nat :: p < Pieces(total) ==> CountOf(data, walk, p, 0) == Capacity(total, p))
  {
    hide ReadPieces, Walk, CountOf, De32;
    var data, total := buf[4..], De32(buf, 0);
    var counts: seq<nat> := seq(Pieces(total), p => 0);
    var node := Decode(buf).node;
    WalkInside(data, 0, Pieces(total));
    WalkCounts(data, 0, counts, total);
    assert 0 !in node.sub;
  }

  /** The shortest buffer that makes the reader write behind its counters: one entry, for a piece one too many. */
  lemma WritesPastTheEnd()
    ensures Decode(Le32(1) + (Le16(1) + Le32(8) + Le32(1) + Zeros(4))) == OutOfBounds
  {
    var entry := Le16(1) + Le32(8) + Le32(1) + Zeros(4);
    DecodesEntries(Le32(1) + entry, 1, entry);
    assert entry == [1, 0, 8, 0, 0, 0, 1, 0, 0, 0, 0, 0, 0, 0];
  }

  /** The smallest block that is not saved comes back as an invalid one. */
  lemma UnsavedComesBack()
    ensures Decode(Encode(New(1, false))).Parsed? && !Inv(Decode(Encode(New(1, false))).node)
  {
    hide Encode, Decode;
    UnsavedRoundTrip(New(1, false));
  }
}
