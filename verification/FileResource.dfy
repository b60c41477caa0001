/** The data file of a resource: grown in steps, written by block, read back in sub-pieces. */
module FileResources {
  import opened Bytes

  const SUB_PIECE: nat := 1024
  const GROWTH: nat := 2 * 1024 * 1024
  const ENCRYPT_HEADER: nat := 1024

  // ---------------------------------------------------------------------------------------
  // Sizes

  /** The size the file is grown to so that `needed` bytes fit, but never past `limit`. */
  function Grown(actual: nat, needed: nat, limit: nat): nat {
    if needed <= actual then actual
    else
      var delta := (needed - actual + GROWTH - 1) / GROWTH * GROWTH;
      if actual + delta < limit then actual + delta else limit
  }

  /** Growing makes room exactly when what is needed lies within the limit. */
  lemma GrowthMakesRoomIff(actual: nat, needed: nat, limit: nat)
    requires actual <= limit
    ensures actual <= Grown(actual, needed, limit) <= limit
    ensures needed <= Grown(actual, needed, limit) <==> needed <= limit
  {
  }

  /** It grows in whole steps of 2 MB, never a step more than needed, unless it stops at the limit. */
  lemma GrowsInSteps(actual: nat, needed: nat, limit: nat)
    requires actual <= limit
    ensures needed <= actual ==> Grown(actual, needed, limit) == actual
    ensures needed > actual && Grown(actual, needed, limit) != limit ==>
              && (Grown(actual, needed, limit) - actual) % GROWTH == 0
              && needed <= Grown(actual, needed, limit) < needed + GROWTH
    ensures needed > actual && Grown(actual, needed, limit) == limit ==> limit < needed + GROWTH
  {
  }

  /** `data` written over `file` at `pos`; a gap is filled with zeros. */
  function Overlay(file: seq<Byte>, pos: nat, data: seq<Byte>): (r: seq<Byte>)
    ensures |r| == if pos + |data| > |file| then pos + |data| else |file|
    ensures r[pos..pos + |data|] == data
    ensures forall k :: 0 <= k < |r| && !(pos <= k < pos + |data|) ==> r[k] == if k < |file| then file[k] else 0
  {
    var front := if pos <= |file| then file[..pos] else file + seq(pos - |file|, k => 0);
    front + data + if pos + |data| <= |file| then file[pos + |data|..] else []
  }

  // ---------------------------------------------------------------------------------------
  // Reading in sub-pieces

  /** All chunks are full sub-pieces but the last, which is never empty; together they are what was asked for. */
  ghost predicate Chunked(chunks: seq<seq<Byte>>, data: seq<Byte>) {
    && Flat(chunks) == data
    && (forall k :: 0 <= k < |chunks| - 1 ==> |chunks[k]| == SUB_PIECE)
    && (chunks != [] ==> 1 <= |chunks[|chunks| - 1]| <= SUB_PIECE)
  }

  /** A buffer of `n` bytes after reading at `at`: behind the end of the file it keeps what it held before. */
  function Fread(file: seq<Byte>, at: nat, n: nat, stale: Byte): (r: seq<Byte>)
    ensures |r| == n && forall k :: 0 <= k < n ==> r[k] == if at + k < |file| then file[at + k] else stale
  {
    seq(n, k requires 0 <= k < n => if at + k < |file| then file[at + k] else stale)
  }

  lemma FreadNext(file: seq<Byte>, at: nat, n: nat, m: nat, stale: Byte)
    ensures Fread(file, at, n, stale) + Fread(file, at + n, m, stale) == Fread(file, at, n + m, stale)
    ensures at + n <= |file| ==> Fread(file, at, n, stale) == file[at..at + n]
  {
  }

  lemma FlatAppend(chunks: seq<seq<Byte>>, chunk: seq<Byte>)
    ensures Flat(chunks + [chunk]) == Flat(chunks) + chunk
  {
    assert (chunks + [chunk])[..|chunks|] == chunks;
  }

  /**
   What a read gives when the file ends too soon: the sub-pieces up to and including the one the
   end falls into, which keeps its full size and in part what its buffer held before.
   */
  ghost predicate CutShort(chunks: seq<seq<Byte>>, file: seq<Byte>, pos: nat, length: nat, stale: Byte) {
    && |chunks| == (if pos <= |file| then |file| - pos else 0) / SUB_PIECE + 1
    && Flat(chunks) == Fread(file, pos, if |chunks| * SUB_PIECE < length then |chunks| * SUB_PIECE else length, stale)
  }

  lemma StopsShort(chunks: seq<seq<Byte>>, file: seq<Byte>, pos: nat, length: nat, stale: Byte, i: nat)
    requires |chunks| == i + 1 && i * SUB_PIECE < length && (i > 0 ==> pos + i * SUB_PIECE <= |file|)
    requires var end := if (i + 1) * SUB_PIECE < length then (i + 1) * SUB_PIECE else length;
             pos + end > |file| && Flat(chunks) == Fread(file, pos, end, stale)
    ensures CutShort(chunks, file, pos, length, stale)
  {
    hide Fread;
  }

  method ReadChunks(file: seq<Byte>, pos: nat, length: nat, stale: Byte) returns (chunks: seq<seq<Byte>>)
    ensures pos + length <= |file| ==>
              Chunked(chunks, file[pos..pos + length]) && |chunks| == (length + SUB_PIECE - 1) / SUB_PIECE
    ensures pos + length > |file| && length > 0 ==> CutShort(chunks, file, pos, length, stale)
  {
    hide CutShort, Flat;
    var count := if length % SUB_PIECE != 0 then length / SUB_PIECE + 1 else length / SUB_PIECE;
    var last := if length % SUB_PIECE != 0 then length % SUB_PIECE else SUB_PIECE;
    chunks := [];
    var done := 0;
    FlatNone();
    for i := 0 to count
      invariant |chunks| == i && done == if i < count then i * SUB_PIECE else length
      invariant (done > 0 ==> pos + done <= |file|) && Flat(chunks) == Fread(file, pos, done, stale)
      invariant forall k :: 0 <= k < i ==> |chunks[k]| == if k == count - 1 then last else SUB_PIECE
    {
      var n := if i == count - 1 then last else SUB_PIECE;
      assert done + n == if i == count - 1 then length else (i + 1) * SUB_PIECE;
      var chunk := Fread(file, pos + done, n, stale);
      FlatAppend(chunks, chunk);
      FreadNext(file, pos, done, n, stale);
      chunks := chunks + [chunk];
      if pos + done + n > |file| {
        StopsShort(chunks, file, pos, length, stale, i);
        return;
      }
      done := done + n;
    }
    FreadNext(file, pos, length, 0, stale);
  }

  lemma FlatNone()
    ensures Flat([]) == []
  {
  }

  // ---------------------------------------------------------------------------------------
  // The object

  class FileResource {
    const fileLength: nat
    const hasEncrypted: bool
    var file: seq<Byte>
    var actualSize: nat
    /** What the space manager was told. */
    ghost var reported: nat

    function Shift(): nat {
      if hasEncrypted then ENCRYPT_HEADER else 0
    }

    ghost predicate Valid()
      reads this
    {
      |file| == actualSize <= fileLength + Shift()
    }

    constructor (fileLength: nat, hasEncrypted: bool)
      ensures Valid() && this.fileLength == fileLength && this.hasEncrypted == hasEncrypted && actualSize == 0 && reported == 0
    {
      this.fileLength, this.hasEncrypted := fileLength, hasEncrypted;
      file, actualSize, reported := [], 0, 0;
    }

    /** A write within the resource always succeeds, grows the file just enough and reports exactly the growth. */
    method WriteBufferArray(startpos: nat, buffers: seq<seq<Byte>>) returns (ok: bool)
      requires Valid()
      modifies this
      ensures reported - old(reported) == actualSize - old(actualSize) >= 0
      ensures actualSize == Grown(old(actualSize), startpos + Shift() + |Flat(buffers)|, fileLength + Shift())
      ensures startpos + |Flat(buffers)| <= fileLength ==>
                ok && Valid() && startpos + Shift() + |Flat(buffers)| <= actualSize
      ensures ok ==> |file| >= actualSize && (Flat(buffers) == [] ==> |file| == actualSize)
      ensures ok && Flat(buffers) != [] ==>
                && startpos + Shift() + |Flat(buffers)| <= |file|
                && file[startpos + Shift()..startpos + Shift() + |Flat(buffers)|] == Flat(buffers)
      ensures ok ==> forall k :: 0 <= k < |old(file)| && !(startpos + Shift() <= k < startpos + Shift() + |Flat(buffers)|) ==>
                file[k] == old(file)[k]
      ensures !ok ==> old(actualSize) == fileLength + Shift() && file == old(file)
    {
      var pos := startpos + Shift();
      var data := Gather(buffers);
      GrowthMakesRoomIff(actualSize, pos + |data|, fileLength + Shift());
      if pos + |data| > actualSize {
        var delta := (pos + |data| - actualSize + GROWTH - 1) / GROWTH * GROWTH;
        var limit := fileLength + Shift();
        var newSize := if actualSize + delta < limit then actualSize + delta else limit;
        if newSize <= actualSize {
          return false;
        }
        file := Overlay(file, newSize - 1, [0]);
        reported := reported + (newSize - actualSize);
        actualSize := newSize;
      }
      if data != [] {
        file := Overlay(file, pos, data);
      }
      ok := true;
    }

    static method Gather(buffers: seq<seq<Byte>>) returns (data: seq<Byte>)
      ensures data == Flat(buffers)
    {
      data := [];
      assert buffers[..0] == [];
      for i := 0 to |buffers|
        invariant data == Flat(buffers[..i])
      {
        assert buffers[..i + 1][..i] == buffers[..i];
        data := data + buffers[i];
      }
      assert buffers[..|buffers|] == buffers;
    }

    /** `stale` stands for what is left in the last buffer when the range is not all in the file yet. */
    method ReadBufferArray(startpos: nat, length: nat, stale: Byte) returns (chunks: seq<seq<Byte>>)
      requires Valid()
      ensures startpos + length > fileLength ==> chunks == []
      ensures startpos + length <= fileLength && startpos + Shift() + length <= actualSize ==>
                Chunked(chunks, file[startpos + Shift()..startpos + Shift() + length])
      ensures startpos + length <= fileLength && startpos + Shift() + length > actualSize && length > 0 ==>
                CutShort(chunks, file, startpos + Shift(), length, stale)
    {
      if startpos + length > fileLength {
        return [];
      }
      chunks := ReadChunks(file, startpos + Shift(), length, stale);
    }
  }

  /** What is written within the resource is what is read back, sub-piece by sub-piece. */
  method WriteThenRead(r: FileResource, startpos: nat, buffers: seq<seq<Byte>>) returns (chunks: seq<seq<Byte>>)
    requires r.Valid() && startpos + |Flat(buffers)| <= r.fileLength
    modifies r
    ensures r.Valid() && Chunked(chunks, Flat(buffers))
  {
    var ok := r.WriteBufferArray(startpos, buffers);
    chunks := r.ReadBufferArray(startpos, |Flat(buffers)|, 0);
  }

  // ---------------------------------------------------------------------------------------
  // The header cipher

  const LETTER_Q: bv8 := 113

  function Xor(b: bv8): bv8 {
    b ^ LETTER_Q
  }

  lemma XorTwice(b: bv8)
    ensures Xor(Xor(b)) == b && (Xor(b) == 0 <==> b == LETTER_Q)
  {
  }

  /** Exclusive or with one letter, up to the first zero byte. Encrypting and decrypting are the same. */
  function Crypt(s: seq<bv8>): (r: seq<bv8>)
    ensures |r| == |s|
  {
    if s == [] || s[0] == 0 then s else [Xor(s[0])] + Crypt(s[1..])
  }

  /** The bytes before the first zero. */
  function TextOf(s: seq<bv8>): seq<bv8> {
    if s == [] || s[0] == 0 then [] else [s[0]] + TextOf(s[1..])
  }

  /** Decrypting gives the buffer back exactly when that letter itself does not occur before the first zero. */
  lemma {:induction false} DecryptsIff(s: seq<bv8>)
    ensures Crypt(Crypt(s)) == s <==> LETTER_Q !in TextOf(s)
    decreases |s|
  {
    hide Xor;
    if s != [] && s[0] != 0 {
      XorTwice(s[0]);
      DecryptsIff(s[1..]);
      var once := Crypt(s);
      assert once[0] == Xor(s[0]) && once[1..] == Crypt(s[1..]);
      var twice := Crypt(once);
      if s[0] == LETTER_Q {
        assert twice[0] == 0;
      } else {
        assert twice == [s[0]] + Crypt(Crypt(s[1..]));
        assert twice[1..] == Crypt(Crypt(s[1..]));
        assert s == [s[0]] + s[1..];
      }
    }
  }

  /** The letter alone is lost. */
  lemma LetterIsLost()
    ensures Crypt([LETTER_Q]) == [0] && Crypt(Crypt([LETTER_Q])) == [0]
  {
  }

  /** Byte by byte: changed up to the first zero, the same from there on. */
  lemma {:induction false} CryptIs(s: seq<bv8>, n: nat, k: nat)
    requires n <= |s| && k < |s| && (forall j :: 0 <= j < n ==> s[j] != 0) && (n == |s| || s[n] == 0)
    ensures Crypt(s)[k] == if k < n then Xor(s[k]) else s[k]
    decreases |s|
  {
    hide Xor;
    if n > 0 && k > 0 {
      CryptIs(s[1..], n - 1, k - 1);
    }
  }

  method BufEncrypt(buf: array<bv8>)
    modifies buf
    ensures buf[..] == Crypt(old(buf[..]))
  {
    hide Xor;
    var i := 0;
    ghost var s := buf[..];
    while i < buf.Length && buf[i] != 0
      invariant 0 <= i <= buf.Length
      invariant forall k :: 0 <= k < i ==> s[k] != 0 && buf[k] == Xor(s[k])
      invariant forall k :: i <= k < buf.Length ==> buf[k] == s[k]
    {
      buf[i] := Xor(buf[i]);
      i := i + 1;
    }
    forall k | 0 <= k < buf.Length
      ensures buf[..][k] == Crypt(s)[k]
    {
      CryptIs(s, i, k);
    }
  }
}
