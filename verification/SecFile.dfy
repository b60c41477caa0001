/** The keyed digest that signs configuration files: the key before and after everything added. */
module HmacMd5s {
  import opened Bytes

  /** What has gone into the digest, and whether nothing was added since the last reset. */
  datatype Mac = Mac(input: seq<Byte>, reset: bool)

  const FRESH := Mac([], true)

  function Add(m: Mac, key: seq<Byte>, data: seq<Byte>): Mac {
    if data == [] then m
    else if m.reset then Mac(m.input + key + data, false)
    else Mac(m.input + data, false)
  }

  lemma AddFirst(key: seq<Byte>, data: seq<Byte>)
    requires data != []
    ensures Add(FRESH, key, data) == Mac(key + data, false)
  {
    assert [] + key == key;
  }

  function Finish(m: Mac, key: seq<Byte>): seq<Byte> {
    m.input + key
  }

  function AddAll(m: Mac, key: seq<Byte>, chunks: seq<seq<Byte>>): Mac {
    if chunks == [] then m else Add(AddAll(m, key, chunks[..|chunks| - 1]), key, chunks[|chunks| - 1])
  }

  /** However the data is split, the digest is taken of key ++ data ++ key; of nothing, it is taken of the key alone. */
  lemma {:induction false} SplitDoesNotMatter(key: seq<Byte>, chunks: seq<seq<Byte>>)
    ensures var m := AddAll(FRESH, key, chunks);
            && m.reset == (Flat(chunks) == [])
            && Finish(m, key) == if Flat(chunks) == [] then key else key + Flat(chunks) + key
    ensures AddAll(FRESH, key, chunks).input == if Flat(chunks) == [] then [] else key + Flat(chunks)
  {
    if chunks != [] {
      SplitDoesNotMatter(key, chunks[..|chunks| - 1]);
      var before, last := Flat(chunks[..|chunks| - 1]), chunks[|chunks| - 1];
      assert key + before + last == key + (before + last);
      assert [] + key == key && [] + last == last && before + [] == before;
    }
  }
}

/** Digests as text: thirty-two hexadecimal digits. */
module HashText {
  import opened Bytes

  function LowerHex(n: int): Byte
    requires 0 <= n < 16
  {
    if n < 10 then 48 + n else 97 + n - 10
  }

  /** The value of a hexadecimal digit of either case, or -1. */
  function HexValue(c: Byte): int {
    if 48 <= c <= 57 then c - 48 else if 65 <= c <= 70 then c - 65 + 10 else if 97 <= c <= 102 then c - 97 + 10 else -1
  }

  function HashToString(h: seq<Byte>): (s: seq<Byte>)
    ensures |s| == 2 * |h|
  {
    if h == [] then [] else [LowerHex(h[0] / 16), LowerHex(h[0] % 16)] + HashToString(h[1..])
  }

  /** One output byte: a character that is no digit leaves its half of the byte as it is. */
  function ReadPair(before: Byte, hi: Byte, lo: Byte): Byte {
    var high := if HexValue(hi) >= 0 then HexValue(hi) * 16 else before;
    if HexValue(lo) >= 0 then high / 16 * 16 + OrNibble(high % 16, HexValue(lo)) else high
  }

  /** Bitwise or of two half bytes. */
  function OrNibble(a: int, b: int): int
    requires 0 <= a < 16 && 0 <= b < 16
    ensures 0 <= OrNibble(a, b) < 16
  {
    8 * (if a / 8 % 2 == 1 || b / 8 % 2 == 1 then 1 else 0) + 4 * (if a / 4 % 2 == 1 || b / 4 % 2 == 1 then 1 else 0)
    + 2 * (if a / 2 % 2 == 1 || b / 2 % 2 == 1 then 1 else 0) + (if a % 2 == 1 || b % 2 == 1 then 1 else 0)
  }

  /** Sixteen bytes, each read from its pair of characters over what was there before. */
  function Read(text: seq<Byte>, before: Hash): (h: Hash)
    requires |text| >= 32
  {
    seq(16, k requires 0 <= k < 16 => ReadPair(before[k], text[2 * k], text[2 * k + 1]))
  }

  /** Too short a text is refused; otherwise sixteen pairs are read over what the digest held before. */
  method HashFromString(text: seq<Byte>, before: Hash) returns (ok: bool, h: Hash)
    ensures ok <==> |text| >= 32
    ensures h == if ok then Read(text, before) else before
  {
    hide ReadPair;
    h := before;
    if |text| < 32 {
      return false, h;
    }
    for k := 0 to 16
      invariant |h| == 16
      invariant forall j :: 0 <= j < k ==> h[j] == ReadPair(before[j], text[2 * j], text[2 * j + 1])
      invariant forall j :: k <= j < 16 ==> h[j] == before[j]
    {
      h := h[k := ReadPair(h[k], text[2 * k], text[2 * k + 1])];
    }
    ok := true;
  }

  lemma {:induction false} TextAt(h: seq<Byte>, k: nat)
    requires k < |h|
    ensures HashToString(h)[2 * k] == LowerHex(h[k] / 16) && HashToString(h)[2 * k + 1] == LowerHex(h[k] % 16)
    decreases |h|
  {
    if k > 0 {
      TextAt(h[1..], k - 1);
    }
  }

  /** Reading the text of a digest gives it back, whatever the output held before and whatever follows. */
  lemma TextRoundTrip(h: Hash, before: Hash, tail: seq<Byte>)
    ensures |HashToString(h) + tail| >= 32 && Read(HashToString(h) + tail, before) == h
  {
    hide ReadPair, HashToString;
    var text := HashToString(h) + tail;
    forall k | 0 <= k < 16
      ensures ReadPair(before[k], text[2 * k], text[2 * k + 1]) == h[k]
    {
      TextAt(h, k);
      PairRead(before[k], h[k]);
    }
  }

  /** The text is in lower case, the higher digit of each byte first. */
  lemma TextIsLowerCase(h: seq<Byte>, k: nat)
    requires k < |h|
    ensures var hi, lo := HashToString(h)[2 * k], HashToString(h)[2 * k + 1];
            && (48 <= hi <= 57 || 97 <= hi <= 102) && (48 <= lo <= 57 || 97 <= lo <= 102)
            && h[k] == 16 * HexValue(hi) + HexValue(lo)
  {
    hide HashToString;
    TextAt(h, k);
    assert h[k] == h[k] / 16 * 16 + h[k] % 16;
  }

  /** Upper case is read as lower case is; a pair without digits leaves the byte, one without a lower digit clears that half. */
  lemma PairsReadOtherwise(before: Byte, hi: Byte, lo: Byte)
    ensures 65 <= hi <= 70 ==> ReadPair(before, hi, lo) == ReadPair(before, hi + 32, lo)
    ensures 65 <= lo <= 70 ==> ReadPair(before, hi, lo) == ReadPair(before, hi, lo + 32)
    ensures HexValue(hi) < 0 && HexValue(lo) < 0 ==> ReadPair(before, hi, lo) == before
    ensures HexValue(hi) >= 0 && HexValue(lo) < 0 ==> ReadPair(before, hi, lo) == 16 * HexValue(hi)
    ensures HexValue(hi) < 0 && HexValue(lo) >= 0 ==> ReadPair(before, hi, lo) / 16 == before / 16
    ensures HexValue(hi) < 0 && HexValue(lo) >= 0 && before % 16 == 0 ==> ReadPair(before, hi, lo) == before + HexValue(lo)
  {
    hide OrNibble;
    if HexValue(lo) >= 0 {
      OrZero(HexValue(lo));
    }
  }

  lemma PairRead(before: Byte, b: Byte)
    ensures ReadPair(before, LowerHex(b / 16), LowerHex(b % 16)) == b
  {
    hide OrNibble, LowerHex, HexValue;
    OrZero(b % 16);
    DigitRead(b / 16);
    DigitRead(b % 16);
    assert b == b / 16 * 16 + b % 16;
  }

  lemma DigitRead(n: int)
    requires 0 <= n < 16
    ensures HexValue(LowerHex(n)) == n
  {
  }

  lemma OrZero(n: int)
    requires 0 <= n < 16
    ensures OrNibble(0, n) == n
  {
  }
}

/** Files that carry a digest of their own contents in the header. */
module SecFiles {
  import opened Bytes
  import opened HmacMd5s

  const HEAD: nat := 28
  const MD5_OFFSET: nat := 12
  const MAX_FILE: nat := 32 * 1024 * 1024
  const VERSION_NOW: Uint32 := 8

  /** The packed header: version, time stamp, digest. */
  function Header(version: Uint32, stamp: Uint64, md5: Hash): (h: seq<Byte>)
    ensures |h| == HEAD
  {
    Le32(version) + Le32(stamp % TWO_32) + Le32(stamp / TWO_32) + md5
  }

  /** The file with the digest field cleared: that is what is signed. */
  function Cleared(file: seq<Byte>): seq<Byte>
    requires |file| >= HEAD
  {
    file[..MD5_OFFSET] + NO_HASH + file[HEAD..]
  }

  function Sealed(file: seq<Byte>, md5: Hash): seq<Byte>
    requires |file| >= HEAD
  {
    file[..MD5_OFFSET] + md5 + file[HEAD..]
  }

  function Tag(hash: seq<Byte> -> Hash, key: seq<Byte>, file: seq<Byte>): Hash
    requires |file| >= HEAD
  {
    hash(key + Cleared(file) + key)
  }

  function Sign(hash: seq<Byte> -> Hash, key: seq<Byte>, file: seq<Byte>): seq<Byte>
    requires |file| >= HEAD
  {
    Sealed(file, Tag(hash, key, file))
  }

  predicate Verifies(hash: seq<Byte> -> Hash, key: seq<Byte>, file: seq<Byte>) {
    && |file| >= HEAD
    && 1 <= De32(file, 0) <= 8
    && file[MD5_OFFSET..HEAD] == Tag(hash, key, file)
  }

  lemma SealedParts(file: seq<Byte>, md5: Hash)
    requires |file| >= HEAD
    ensures |Sealed(file, md5)| == |file|
    ensures Sealed(file, md5)[MD5_OFFSET..HEAD] == md5 && Sealed(file, md5)[HEAD..] == file[HEAD..]
    ensures De32(Sealed(file, md5), 0) == De32(file, 0)
    ensures Cleared(Sealed(file, md5)) == Cleared(file)
  {
  }

  /** Signing makes a file verify, whatever the digest function and whatever stood in its digest field. */
  lemma SignVerifies(hash: seq<Byte> -> Hash, key: seq<Byte>, file: seq<Byte>)
    requires |file| >= HEAD && 1 <= De32(file, 0) <= 8
    ensures Verifies(hash, key, Sign(hash, key, file))
    ensures |Sign(hash, key, file)| == |file| && Sign(hash, key, file)[HEAD..] == file[HEAD..]
  {
    hide Cleared;
    SealedParts(file, Tag(hash, key, file));
  }

  /** A file of an unknown version does not verify even when it is signed. */
  lemma UnknownVersionRefused(hash: seq<Byte> -> Hash, key: seq<Byte>, file: seq<Byte>)
    requires |file| >= HEAD && !(1 <= De32(file, 0) <= 8)
    ensures !Verifies(hash, key, Sign(hash, key, file))
  {
    hide Cleared, De32;
    SealedParts(file, Tag(hash, key, file));
  }

  /** The packed bytes of a header. */
  lemma HeaderBytes(md5: Hash)
    ensures Header(8, 0x0102_0304_0506_0708, md5) == [8, 0, 0, 0, 8, 7, 6, 5, 4, 3, 2, 1] + md5
  {
    assert Le32(8) == [8, 0, 0, 0];
    assert Le32(0x0506_0708) == [8, 7, 6, 5] && Le32(0x0102_0304) == [4, 3, 2, 1];
    assert [8, 0, 0, 0] + [8, 7, 6, 5] + [4, 3, 2, 1] == [8, 0, 0, 0, 8, 7, 6, 5, 4, 3, 2, 1];
  }

  /** Two different inputs that the digest does not tell apart. */
  predicate Collide(hash: seq<Byte> -> Hash, a: seq<Byte>, b: seq<Byte>) {
    a != b && hash(a) == hash(b)
  }

  lemma FramedAlike(key: seq<Byte>, a: seq<Byte>, b: seq<Byte>)
    requires key + a + key == key + b + key
    ensures a == b
  {
    var x, y := key + a + key, key + b + key;
    assert |x| == |y| && a == x[|key|..|x| - |key|] && b == y[|key|..|y| - |key|];
  }

  /** A file is its digest field and the rest of it. */
  lemma FileIsParts(file: seq<Byte>, other: seq<Byte>)
    requires |file| >= HEAD && |other| >= HEAD
    requires Cleared(file) == Cleared(other) && file[MD5_OFFSET..HEAD] == other[MD5_OFFSET..HEAD]
    ensures file == other
  {
    var c, d := Cleared(file), Cleared(other);
    assert file[..MD5_OFFSET] == c[..MD5_OFFSET] && other[..MD5_OFFSET] == d[..MD5_OFFSET];
    assert file[HEAD..] == c[HEAD..] && other[HEAD..] == d[HEAD..];
    assert file == file[..MD5_OFFSET] + file[MD5_OFFSET..HEAD] + file[HEAD..];
    assert other == other[..MD5_OFFSET] + other[MD5_OFFSET..HEAD] + other[HEAD..];
  }

  /**
   A signed file that was altered anywhere. With its digest field left as it was it verifies only
   if the alteration is a collision of the digest: there is no byte outside the field that the
   digest does not see. With the digest field alone altered it never verifies.
   */
  lemma AlteredVerifiesIff(hash: seq<Byte> -> Hash, key: seq<Byte>, file: seq<Byte>, other: seq<Byte>)
    requires |file| >= HEAD && |other| >= HEAD && other != Sign(hash, key, file)
    ensures other[MD5_OFFSET..HEAD] == Sign(hash, key, file)[MD5_OFFSET..HEAD] ==>
              (Verifies(hash, key, other) <==>
               1 <= De32(other, 0) <= 8 && Collide(hash, key + Cleared(other) + key, key + Cleared(file) + key))
    ensures Cleared(other) == Cleared(file) ==> !Verifies(hash, key, other)
  {
    hide Cleared;
    var signed := Sign(hash, key, file);
    SealedParts(file, Tag(hash, key, file));
    if other[MD5_OFFSET..HEAD] == signed[MD5_OFFSET..HEAD] {
      if key + Cleared(other) + key == key + Cleared(file) + key {
        FramedAlike(key, Cleared(other), Cleared(file));
        FileIsParts(other, signed);
      }
    } else {
      assert other[MD5_OFFSET..HEAD] != Tag(hash, key, file);
    }
    if Cleared(other) == Cleared(file) && other[MD5_OFFSET..HEAD] == Tag(hash, key, file) {
      FileIsParts(other, signed);
    }
  }

  class DiskFile {
    var bytes: seq<Byte>

    constructor ()
      ensures bytes == []
    {
      bytes := [];
    }
  }

  class SecFile {
    const hash: seq<Byte> -> Hash
    const key: seq<Byte>
    const disk: DiskFile
    var mac: Mac
    var crash: bool
    var onlyRead: bool
    var isOpen: bool
    var count: Uint32
    var pos: nat
    var headVersion: Uint32
    var headMd5: Hash

    constructor (hash: seq<Byte> -> Hash, key: seq<Byte>, disk: DiskFile)
      ensures this.hash == hash && this.key == key && this.disk == disk && !isOpen && headMd5 == NO_HASH
    {
      this.hash, this.key, this.disk := hash, key, disk;
      mac, crash, onlyRead, isOpen := FRESH, true, false, false;
      count, pos, headVersion, headMd5 := 0, 0, 0, NO_HASH;
    }

    /** Open for writing: the digest has seen exactly what is on disk. */
    ghost predicate Writing()
      reads this, disk
    {
      && isOpen && !crash && !onlyRead && headMd5 == NO_HASH
      && HEAD <= |disk.bytes| == count == pos && count < MAX_FILE
      && De32(disk.bytes, 0) == VERSION_NOW && disk.bytes[MD5_OFFSET..HEAD] == NO_HASH
      && mac == Mac(key + disk.bytes, false)
    }

    /** Open for reading, somewhere behind the header. */
    ghost predicate Reading()
      reads this, disk
    {
      && isOpen && !crash && onlyRead
      && HEAD <= pos <= |disk.bytes| == count <= MAX_FILE
      && Verifies(hash, key, disk.bytes) && headVersion == De32(disk.bytes, 0)
    }

    method SecCreate(stamp: Uint64)
      requires !isOpen && headMd5 == NO_HASH
      modifies this, disk
      ensures Writing() && disk.bytes == Header(VERSION_NOW, stamp, NO_HASH)
    {
      hide Header, De32, Add;
      crash, onlyRead, count, mac := false, false, 0, FRESH;
      isOpen, pos := true, 0;
      disk.bytes := [];
      headVersion := VERSION_NOW;
      var head := Header(VERSION_NOW, stamp, headMd5);
      disk.bytes := disk.bytes + head;
      pos := pos + |head|;
      mac := Add(mac, key, head);
      count := count + |head|;
      HeaderParts(VERSION_NOW, stamp, NO_HASH);
      AddFirst(key, head);
      assert disk.bytes == head;
    }

    /** Refused exactly when the file is broken or would reach the size limit. */
    method SecWrite(buf: seq<Byte>) returns (ok: bool)
      requires (crash || Writing()) && |buf| < TWO_32 - MAX_FILE
      modifies this, disk
      ensures old(crash) ==> !ok && crash && disk.bytes == old(disk.bytes)
      ensures !old(crash) ==> Writing() && (ok <==> |old(disk.bytes)| + |buf| < MAX_FILE)
      ensures disk.bytes == if ok then old(disk.bytes) + buf else old(disk.bytes)
    {
      if crash || (count + |buf|) % TWO_32 >= MAX_FILE {
        return false;
      }
      WriteKeepsHead(disk.bytes, buf);
      assert key + disk.bytes + buf == key + (disk.bytes + buf);
      assert disk.bytes + [] == disk.bytes;
      disk.bytes := disk.bytes + buf;
      pos := pos + |buf|;
      mac := Add(mac, key, buf);
      count := count + |buf|;
      ok := true;
    }

    /** Closing a written file signs it; closing a file that was read, or is broken, leaves it alone. */
    method SecClose()
      requires Writing() || Reading() || crash || !isOpen
      modifies this, disk
      ensures !isOpen && headMd5 == old(headMd5)
      ensures disk.bytes == if old(Writing()) then Sign(hash, key, old(disk.bytes)) else old(disk.bytes)
      ensures old(Writing()) ==> Verifies(hash, key, disk.bytes) && |disk.bytes| < MAX_FILE
      ensures old(Writing()) ==> disk.bytes[HEAD..] == old(disk.bytes)[HEAD..] && De32(disk.bytes, 0) == VERSION_NOW
    {
      if !isOpen {
        return;
      }
      if !crash && !onlyRead {
        assert Cleared(disk.bytes) == disk.bytes;
        SignVerifies(hash, key, disk.bytes);
        SealedParts(disk.bytes, Tag(hash, key, disk.bytes));
        var tag := hash(Finish(mac, key));
        // seek to the digest field and write over it
        disk.bytes := disk.bytes[..MD5_OFFSET] + tag + disk.bytes[MD5_OFFSET + |tag|..];
      }
      isOpen := false;
    }

    /** Opens exactly the files that are small enough and carry the right digest. */
    method SecOpen() returns (ok: bool)
      requires !isOpen
      modifies this
      ensures ok <==> |disk.bytes| <= MAX_FILE && Verifies(hash, key, disk.bytes)
      ensures ok ==> Reading() && pos == HEAD && headMd5 == NO_HASH
    {
      crash, mac, count := true, FRESH, 0;
      isOpen, pos := true, 0;
      if |disk.bytes| > MAX_FILE {
        return false;
      }
      crash := false;
      ok := DoVerify();
      if !ok {
        crash := true;
        isOpen := false;
        return;
      }
      onlyRead := true;
      count := |disk.bytes|;
    }

    method DoVerify() returns (ok: bool)
      requires mac == FRESH && pos == 0
      modifies this
      ensures ok <==> Verifies(hash, key, disk.bytes)
      ensures isOpen == old(isOpen) && crash == old(crash) && onlyRead == old(onlyRead) && count == old(count)
      ensures ok ==> headVersion == De32(disk.bytes, 0) && headMd5 == NO_HASH && pos == HEAD
    {
      if |disk.bytes| < HEAD {
        return false;
      }
      headVersion := De32(disk.bytes, 0);
      headMd5 := disk.bytes[MD5_OFFSET..HEAD];
      if !(1 <= headVersion <= 8) {
        return false;
      }
      var fileHash := headMd5;
      headMd5 := NO_HASH;
      mac := DigestOf(key, disk.bytes);
      ok := hash(Finish(mac, key)) == fileHash;
      pos := HEAD;
    }

    /** Feeds the cleared header and then the rest of the file, 64 KB at a time. */
    static method DigestOf(key: seq<Byte>, file: seq<Byte>) returns (m: Mac)
      requires |file| >= HEAD
      ensures m == Mac(key + Cleared(file), false)
    {
      m := Add(FRESH, key, file[..MD5_OFFSET] + NO_HASH);
      var pos := HEAD;
      while pos < |file|
        invariant HEAD <= pos <= |file|
        invariant m == Mac(key + (file[..MD5_OFFSET] + NO_HASH + file[HEAD..pos]), false)
      {
        var n := if |file| - pos < 65536 then |file| - pos else 65536;
        DigestNext(key, file[..MD5_OFFSET] + NO_HASH, file, pos, n);
        m := Add(m, key, file[pos..pos + n]);
        pos := pos + n;
      }
      assert file[HEAD..|file|] == file[HEAD..];
    }

    method SecRead(n: nat) returns (buf: seq<Byte>)
      requires crash || Reading()
      modifies `pos
      ensures crash ==> buf == [] && pos == old(pos)
      ensures !crash ==> Reading() && pos == if old(pos) + n <= |disk.bytes| then old(pos) + n else |disk.bytes|
      ensures !crash ==> buf == disk.bytes[old(pos)..pos]
    {
      if crash {
        return [];
      }
      var end := if pos + n <= |disk.bytes| then pos + n else |disk.bytes|;
      buf := disk.bytes[pos..end];
      pos := end;
    }
  }

  lemma WriteKeepsHead(file: seq<Byte>, buf: seq<Byte>)
    requires |file| >= HEAD
    ensures De32(file + buf, 0) == De32(file, 0) && (file + buf)[MD5_OFFSET..HEAD] == file[MD5_OFFSET..HEAD]
    ensures (file + buf)[HEAD..] == file[HEAD..] + buf
  {
  }

  lemma DigestNext(key: seq<Byte>, head: seq<Byte>, file: seq<Byte>, pos: nat, n: nat)
    requires HEAD <= pos && pos + n <= |file|
    ensures key + (head + file[HEAD..pos]) + file[pos..pos + n] == key + (head + file[HEAD..pos + n])
  {
    assert file[HEAD..pos] + file[pos..pos + n] == file[HEAD..pos + n];
  }

  lemma HeaderParts(version: Uint32, stamp: Uint64, md5: Hash)
    ensures De32(Header(version, stamp, md5), 0) == version && Header(version, stamp, md5)[MD5_OFFSET..HEAD] == md5
  {
    var h := Header(version, stamp, md5);
    assert h[0..4] == Le32(version);
    Read32(h, 0, version);
  }

  /**
   Any contents, written in any split, closed, and opened again under the same key by another
   object: the file verifies and gives the same bytes back.
   */
  method StoreAndLoad(hash: seq<Byte> -> Hash, key: seq<Byte>, stamp: Uint64, chunks: seq<seq<Byte>>)
    returns (ok: bool, content: seq<Byte>)
    requires HEAD + |Flat(chunks)| < MAX_FILE
    ensures ok && content == Flat(chunks)
  {
    hide Header, Verifies, Sign, De32;
    var disk := new DiskFile();
    var writer := new SecFile(hash, key, disk);
    writer.SecCreate(stamp);
    for n := 0 to |chunks|
      invariant writer.Writing() && fresh(writer) && fresh(disk) && writer.disk == disk
      invariant writer.hash == hash && writer.key == key
      invariant disk.bytes[HEAD..] == Flat(chunks[..n])
    {
      FlatNext(chunks, n);
      WriteKeepsHead(disk.bytes, chunks[n]);
      var written := writer.SecWrite(chunks[n]);
    }
    assert chunks[..|chunks|] == chunks;
    writer.SecClose();
    var reader := new SecFile(hash, key, disk);
    ok := reader.SecOpen();
    content := reader.SecRead(|disk.bytes|);
  }

  /**
   A file as it is left by writing and closing, replaced by another one before it is opened again
   under the same key. The same file opens; one with another digest and the same rest does not; and
   one with the same digest and another rest opens exactly when the digest has a collision there.
   */
  method StoreAlterLoad(hash: seq<Byte> -> Hash, key: seq<Byte>, stamp: Uint64, content: seq<Byte>, other: seq<Byte>)
    returns (ok: bool)
    requires HEAD + |content| < MAX_FILE && HEAD <= |other| <= MAX_FILE
    ensures var file := Header(VERSION_NOW, stamp, NO_HASH) + content; var signed := Sign(hash, key, file);
            && (other == signed ==> ok)
            && (other != signed && Cleared(other) == Cleared(file) ==> !ok)
            && (other != signed && other[MD5_OFFSET..HEAD] == signed[MD5_OFFSET..HEAD] ==>
                  (ok <==> 1 <= De32(other, 0) <= 8 && Collide(hash, key + Cleared(other) + key, key + Cleared(file) + key)))
  {
    hide Header, Verifies, Sign, De32, Cleared, Collide;
    var disk := new DiskFile();
    var writer := new SecFile(hash, key, disk);
    writer.SecCreate(stamp);
    var written := writer.SecWrite(content);
    ghost var file := disk.bytes;
    writer.SecClose();
    ghost var signed := disk.bytes;
    assert Verifies(hash, key, signed);
    disk.bytes := other;
    var reader := new SecFile(hash, key, disk);
    ok := reader.SecOpen();
    if other != signed {
      AlteredVerifiesIff(hash, key, file, other);
    }
  }

  lemma FlatNext(chunks: seq<seq<Byte>>, n: nat)
    requires n < |chunks|
    ensures Flat(chunks[..n + 1]) == Flat(chunks[..n]) + chunks[n]
    ensures |Flat(chunks[..n])| + |chunks[n]| <= |Flat(chunks)|
  {
    assert chunks[..n + 1][..n] == chunks[..n];
    FlatGrows(chunks, n + 1);
  }

  lemma {:induction false} FlatGrows(chunks: seq<seq<Byte>>, n: nat)
    requires n <= |chunks|
    ensures |Flat(chunks[..n])| <= |Flat(chunks)|
    decreases |chunks|
  {
    if n < |chunks| {
      FlatGrows(chunks[..|chunks| - 1], n);
      assert chunks[..|chunks| - 1][..n] == chunks[..n];
    } else {
      assert chunks[..n] == chunks;
    }
  }
}
