/** The versioned record that describes one resource in the resource list. */
module FileResourceInfos {
  import opened Bytes

  const HALF: int := 0x8000_0000
  const MAX_RECORD: int := 2 * 1024 * 1024

  datatype Url = Url(kind: Uint16, url: Text, refer: Text)

  type UrlList = us: seq<Url> | |us| < 0x8000_0000
  type WordList = ws: seq<Uint32> | |ws| < 0x8000_0000

  // a record grew version by version; the fields of one version stand together

  datatype RidInfo = RidInfo(rid: Hash, fileLength: Uint32, blockCount: Uint32, blockSize: Uint32)

  datatype Part1 = Part1(path: Text, ridInfo: RidInfo, md5s: seq<Hash>, urls: UrlList)

  datatype Part2 = Part2(lastPush: Uint32, traffic: WordList)

  datatype Part3 = Part3(downMode: Byte, webUrl: Text, duration: Uint32, lastWrite: Uint64, dataRate: Uint32)

  datatype Part5 = Part5(fileName: Text, openService: Uint32)

  datatype Info = Info(v1: Part1, v2: Part2, v3: Part3, v5: Part5, isPush: Byte)

  // ---------------------------------------------------------------------------------------
  // The bytes of a record

  function Str(s: Text): seq<Byte> {
    Le32(|s|) + s
  }

  function Le64(n: Uint64): seq<Byte> {
    Le32(n % TWO_32) + Le32(n / TWO_32)
  }

  function Rid(r: RidInfo): seq<Byte> {
    r.rid + (Le32(r.fileLength) + (Le32(r.blockCount) + Le32(r.blockSize)))
  }

  function Join(parts: seq<Hash>): seq<Byte> {
    if parts == [] then [] else parts[0] + Join(parts[1..])
  }

  function UrlBytes(u: Url): seq<Byte> {
    Le16(u.kind) + Str(u.url) + Str(u.refer)
  }

  function Urls(us: seq<Url>): seq<Byte> {
    if us == [] then [] else UrlBytes(us[0]) + Urls(us[1..])
  }

  function Words(ws: seq<Uint32>): seq<Byte> {
    if ws == [] then [] else Le32(ws[0]) + Words(ws[1..])
  }

  /**
   The loop that should fill the list up starts at its length and runs to what is missing, an
   unsigned difference that wraps around when there are more digests than announced.
   */
  function Padded(p: Part1): seq<Hash> {
    var have := |p.md5s|;
    var bound := (p.ridInfo.blockCount - have) % TWO_32;
    p.md5s + if bound >= have then seq(bound - have, k => NO_HASH) else []
  }

  function Version1(p: Part1): seq<Byte> {
    Str(p.path) + (Rid(p.ridInfo) + (Join(Padded(p)) + (Le32(|p.urls|) + Urls(p.urls))))
  }

  function Version2(p: Part2): seq<Byte> {
    Le32(p.lastPush) + (Le32(|p.traffic|) + Words(p.traffic))
  }

  function Version3(p: Part3): seq<Byte> {
    [p.downMode] + (Str(p.webUrl) + (Le32(p.duration) + (Le64(p.lastWrite) + Le32(p.dataRate))))
  }

  function Version5(p: Part5): seq<Byte> {
    Str(p.fileName) + Le32(p.openService)
  }

  /** Everything after the record length up to the field that version 8 added. */
  function Version7(x: Info): seq<Byte> {
    Version1(x.v1) + (Version2(x.v2) + (Version3(x.v3) + Version5(x.v5)))
  }

  function Record(x: Info): seq<Byte> {
    Version7(x) + [x.isPush]
  }

  function Encode(x: Info): seq<Byte>
    requires 4 + |Record(x)| < TWO_32
  {
    Le32(4 + |Record(x)|) + Record(x)
  }

  // ---------------------------------------------------------------------------------------
  // Reading

  /** A refusal, a reading loop that runs past the end of the buffer, or a value and where it ends. */
  datatype Cursor<+T> = Fail | Overrun | At(off: nat, value: T)

  /** What is not a value stays what it is. */
  function Miss<T, U>(c: Cursor<T>): (r: Cursor<U>)
    requires !c.At?
    ensures !r.At? && r.Overrun? == c.Overrun?
  {
    if c.Overrun? then Overrun else Fail
  }

  /** The size test for `n` entries from `at` on, in 32 bits. */
  predicate Passes(b: seq<Byte>, at: nat, n: nat, entry: nat) {
    n < HALF && (at + entry * n) % TWO_32 <= |b|
  }

  /** A list that passes the test although it is not all there. */
  predicate Wraps(b: seq<Byte>, at: nat, n: nat, entry: nat) {
    Passes(b, at, n, entry) && at + entry * n > |b|
  }

  function ReadStr(b: seq<Byte>, off: nat): (c: Cursor<Text>)
    ensures c.At? ==> c.off <= |b|
    ensures !c.Overrun?
  {
    if off + 4 > |b| then Fail
    else
      var n := De32(b, off);
      if n >= HALF || off + 4 + n > |b| then Fail else At(off + 4 + n, b[off + 4..off + 4 + n])
  }

  function ReadMd5s(b: seq<Byte>, off: nat, n: nat): (c: Cursor<seq<Hash>>)
    requires off + 16 * n <= |b|
    ensures c.At? && c.off == off + 16 * n && |c.value| == n
    decreases n
  {
    if n == 0 then At(off, [])
    else
      var rest := ReadMd5s(b, off + 16, n - 1);
      At(rest.off, [b[off..off + 16]] + rest.value)
  }

  function ReadUrl(b: seq<Byte>, off: nat): (c: Cursor<Url>)
    ensures c.At? ==> c.off <= |b|
    ensures !c.Overrun?
  {
    if off + 2 > |b| then Fail
    else
      var url := ReadStr(b, off + 2);
      if url.Fail? then Fail
      else
        var refer := ReadStr(b, url.off);
        if refer.Fail? then Fail else At(refer.off, Url(De16(b, off) % 256, url.value, refer.value))
  }

  function ReadUrls(b: seq<Byte>, off: nat, n: nat): (c: Cursor<seq<Url>>)
    requires off <= |b|
    ensures c.At? ==> c.off <= |b| && |c.value| == n && forall u :: u in c.value ==> u.kind < 256
    ensures !c.Overrun?
    decreases n
  {
    if n == 0 then At(off, [])
    else
      var u := ReadUrl(b, off);
      if u.Fail? then Fail
      else
        var rest := ReadUrls(b, u.off, n - 1);
        if rest.Fail? then Fail else At(rest.off, [u.value] + rest.value)
  }

  function ReadWords(b: seq<Byte>, off: nat, n: nat): (c: Cursor<seq<Uint32>>)
    requires off + 4 * n <= |b|
    ensures c.At? && c.off == off + 4 * n && |c.value| == n
    decreases n
  {
    if n == 0 then At(off, [])
    else
      var rest := ReadWords(b, off + 4, n - 1);
      At(rest.off, [De32(b, off)] + rest.value)
  }

  /** A count that is negative as a signed number makes the loop over it do nothing. */
  function Signed(n: Uint32): nat {
    if n < HALF then n else 0
  }

  function Read1(b: seq<Byte>, off: nat): (c: Cursor<Part1>)
    ensures c.At? ==> c.off <= |b| && Exact(c.value)
  {
    var path := ReadStr(b, off);
    if path.Fail? || path.off + 28 > |b| then Fail
    else
      var ridInfo := ReadRid(b, path.off);
      var n := ridInfo.blockCount;
      if !Passes(b, path.off + 28, n, 16) then Fail
      else if path.off + 28 + 16 * n > |b| then Overrun
      else
        var md5s := ReadMd5s(b, path.off + 28, n);
        if md5s.off + 4 > |b| then Fail
        else
          var urls := ReadUrls(b, md5s.off + 4, Signed(De32(b, md5s.off)));
          if urls.Fail? then Fail else At(urls.off, Part1(path.value, ridInfo, md5s.value, urls.value))
  }

  /** All digests are there and every url type fits a byte. */
  predicate Exact(p: Part1) {
    |p.md5s| == p.ridInfo.blockCount && forall u :: u in p.urls ==> u.kind < 256
  }

  function ReadRid(b: seq<Byte>, o: nat): RidInfo
    requires o + 28 <= |b|
  {
    RidInfo(b[o..o + 16], De32(b, o + 16), De32(b, o + 20), De32(b, o + 24))
  }

  function Read2(b: seq<Byte>, off: nat): (c: Cursor<Part2>)
    ensures c.At? ==> c.off <= |b|
  {
    if off + 8 > |b| then Fail
    else
      var n := De32(b, off + 4);
      if !Passes(b, off + 8, n, 4) then Fail
      else if off + 8 + 4 * n > |b| then Overrun
      else
        var ws := ReadWords(b, off + 8, n);
        At(ws.off, Part2(De32(b, off), ws.value))
  }

  function Read3(b: seq<Byte>, off: nat): (c: Cursor<Part3>)
    ensures c.At? ==> c.off <= |b|
    ensures !c.Overrun?
  {
    if off + 1 > |b| then Fail
    else
      var web := ReadStr(b, off + 1);
      if web.Fail? || web.off + 16 > |b| then Fail
      else
        var o := web.off;
        At(o + 16, Part3(b[off], web.value, De32(b, o), De32(b, o + 4) + TWO_32 * De32(b, o + 8), De32(b, o + 12)))
  }

  function Read5(b: seq<Byte>, off: nat): (c: Cursor<Part5>)
    ensures c.At? ==> c.off <= |b|
    ensures !c.Overrun?
  {
    var name := ReadStr(b, off);
    if name.Fail? || name.off + 4 > |b| then Fail
    else At(name.off + 4, Part5(name.value, De32(b, name.off)))
  }

  /** Reading into an object whose `isPush` is left alone. */
  function Read7(b: seq<Byte>, off: nat, isPush: Byte): (c: Cursor<Info>)
    ensures c.At? ==> c.off <= |b| && Exact(c.value.v1)
  {
    var c1 := Read1(b, off);
    if !c1.At? then Miss(c1)
    else
      var c2 := Read2(b, c1.off);
      if !c2.At? then Miss(c2)
      else
        var c3 := Read3(b, c2.off);
        if !c3.At? then Miss(c3)
        else
          var c5 := Read5(b, c3.off);
          if !c5.At? then Miss(c5) else At(c5.off, Info(c1.value, c2.value, c3.value, c5.value, isPush))
  }

  function Decode(b: seq<Byte>, version: nat, isPush: Byte): Cursor<Info>
    requires version >= 6
  {
    if |b| >= MAX_RECORD || |b| < 4 || De32(b, 0) != |b| then Fail
    else
      var c := Read7(b, 4, isPush);
      if !c.At? || version == 6 || version == 7 then c
      else if c.off + 1 > |b| || version != 8 then Fail
      else At(c.off + 1, c.value.(isPush := b[c.off]))
  }

  // ---------------------------------------------------------------------------------------
  // Field by field

  lemma HoldsSplit(b: seq<Byte>, off: nat, first: seq<Byte>, rest: seq<Byte>)
    requires Holds(b, off, first + rest)
    ensures Holds(b, off, first) && Holds(b, off + |first|, rest)
  {
    var all := first + rest;
    assert all[0..|first|] == first && all[|first|..|first| + |rest|] == rest;
    HoldsPart(b, off, all, 0, first);
    HoldsPart(b, off, all, |first|, rest);
  }

  lemma ReadsStr(b: seq<Byte>, off: nat, s: Text)
    requires Holds(b, off, Str(s))
    ensures ReadStr(b, off) == At(off + |Str(s)|, s)
  {
    HoldsSplit(b, off, Le32(|s|), s);
    Read32(b, off, |s|);
  }

  lemma {:induction false} ReadsMd5s(b: seq<Byte>, off: nat, ms: seq<Hash>)
    requires Holds(b, off, Join(ms))
    ensures |Join(ms)| == 16 * |ms|
    ensures ReadMd5s(b, off, |ms|) == At(off + |Join(ms)|, ms)
    decreases |ms|
  {
    if ms != [] {
      HoldsSplit(b, off, ms[0], Join(ms[1..]));
      ReadsMd5s(b, off + 16, ms[1..]);
      assert ms == [ms[0]] + ms[1..];
    }
  }

  function Narrow(u: Url): Url {
    Url(u.kind % 256, u.url, u.refer)
  }

  function NarrowAll(us: seq<Url>): (vs: seq<Url>)
    ensures |vs| == |us|
  {
    if us == [] then [] else [Narrow(us[0])] + NarrowAll(us[1..])
  }

  lemma ReadsUrl(b: seq<Byte>, off: nat, u: Url)
    requires Holds(b, off, UrlBytes(u))
    ensures ReadUrl(b, off) == At(off + |UrlBytes(u)|, Narrow(u))
  {
    hide Holds, Le16, De16, Str, ReadStr;
    assert UrlBytes(u) == Le16(u.kind) + (Str(u.url) + Str(u.refer));
    HoldsSplit(b, off, Le16(u.kind), Str(u.url) + Str(u.refer));
    HoldsSplit(b, off + 2, Str(u.url), Str(u.refer));
    Read16(b, off, u.kind);
    ReadsStr(b, off + 2, u.url);
    ReadsStr(b, off + 2 + |Str(u.url)|, u.refer);
  }

  lemma {:induction false} ReadsUrls(b: seq<Byte>, off: nat, us: seq<Url>)
    requires Holds(b, off, Urls(us))
    ensures off <= |b| && ReadUrls(b, off, |us|) == At(off + |Urls(us)|, NarrowAll(us))
    decreases |us|
  {
    hide UrlBytes, ReadUrl;
    if us != [] {
      HoldsSplit(b, off, UrlBytes(us[0]), Urls(us[1..]));
      ReadsUrl(b, off, us[0]);
      ReadsUrls(b, off + |UrlBytes(us[0])|, us[1..]);
      assert NarrowAll(us) == [Narrow(us[0])] + NarrowAll(us[1..]);
    }
  }

  lemma {:induction false} ReadsWords(b: seq<Byte>, off: nat, ws: seq<Uint32>)
    requires Holds(b, off, Words(ws))
    ensures |Words(ws)| == 4 * |ws|
    ensures ReadWords(b, off, |ws|) == At(off + |Words(ws)|, ws)
    decreases |ws|
  {
    if ws != [] {
      HoldsSplit(b, off, Le32(ws[0]), Words(ws[1..]));
      Read32(b, off, ws[0]);
      ReadsWords(b, off + 4, ws[1..]);
      assert ws == [ws[0]] + ws[1..];
    }
  }

  // ---------------------------------------------------------------------------------------
  // Section by section

  /** The first part as it comes back: the list of digests filled up, url types cut to a byte. */
  function Stored(p: Part1): Part1 {
    p.(md5s := Padded(p), urls := NarrowAll(p.urls))
  }

  /** The writer's list has the announced number of digests. */
  predicate Filled(p: Part1) {
    |Padded(p)| == p.ridInfo.blockCount
  }

  lemma Reads1(b: seq<Byte>, off: nat, p: Part1)
    requires Holds(b, off, Version1(p)) && |b| < MAX_RECORD && Filled(p)
    ensures Read1(b, off) == At(off + |Version1(p)|, Stored(p))
  {
    hide Holds, Le32, De32, Str, Rid, Join, Padded, Urls, ReadStr, ReadRid, ReadMd5s, ReadUrls, NarrowAll;
    var md5s, count, urls := Join(Padded(p)), Le32(|p.urls|), Urls(p.urls);
    HoldsSplit(b, off, Str(p.path), Rid(p.ridInfo) + (md5s + (count + urls)));
    ReadsStr(b, off, p.path);
    var o := off + |Str(p.path)|;
    HoldsSplit(b, o, Rid(p.ridInfo), md5s + (count + urls));
    ReadsRid(b, o, p.ridInfo);
    HoldsSplit(b, o + 28, md5s, count + urls);
    ReadsMd5s(b, o + 28, Padded(p));
    var q := o + 28 + |md5s|;
    HoldsSplit(b, q, count, urls);
    Read32(b, q, |p.urls|);
    ReadsUrls(b, q + 4, p.urls);
  }

  /** A count of urls that is negative as a signed number is read as none. */
  lemma NegativeCountIsNone(b: seq<Byte>, off: nat, p: Part1, count: Uint32)
    requires |b| < MAX_RECORD && |p.md5s| == p.ridInfo.blockCount && p.urls == [] && count >= HALF
    requires Holds(b, off, Str(p.path) + (Rid(p.ridInfo) + (Join(p.md5s) + Le32(count))))
    ensures Read1(b, off) == At(off + |Str(p.path)| + 28 + |Join(p.md5s)| + 4, p)
  {
    hide Holds, Le32, De32, Str, Rid, Join, ReadStr, ReadRid, ReadMd5s, ReadUrls;
    var md5s := Join(p.md5s);
    HoldsSplit(b, off, Str(p.path), Rid(p.ridInfo) + (md5s + Le32(count)));
    ReadsStr(b, off, p.path);
    var o := off + |Str(p.path)|;
    HoldsSplit(b, o, Rid(p.ridInfo), md5s + Le32(count));
    ReadsRid(b, o, p.ridInfo);
    HoldsSplit(b, o + 28, md5s, Le32(count));
    ReadsMd5s(b, o + 28, p.md5s);
    Read32(b, o + 28 + |md5s|, count);
    ReadsNoUrls(b, o + 28 + |md5s| + 4);
  }

  lemma ReadsNoUrls(b: seq<Byte>, off: nat)
    requires off <= |b|
    ensures ReadUrls(b, off, 0) == At(off, [])
  {
  }

  lemma ReadsRid(b: seq<Byte>, o: nat, r: RidInfo)
    requires Holds(b, o, Rid(r))
    ensures |Rid(r)| == 28 && o + 28 <= |b| && ReadRid(b, o) == r
  {
    HoldsSplit(b, o, r.rid, Le32(r.fileLength) + (Le32(r.blockCount) + Le32(r.blockSize)));
    HoldsSplit(b, o + 16, Le32(r.fileLength), Le32(r.blockCount) + Le32(r.blockSize));
    HoldsSplit(b, o + 20, Le32(r.blockCount), Le32(r.blockSize));
    Read32(b, o + 16, r.fileLength);
    Read32(b, o + 20, r.blockCount);
    Read32(b, o + 24, r.blockSize);
  }

  lemma Reads2(b: seq<Byte>, off: nat, p: Part2)
    requires Holds(b, off, Version2(p)) && |b| < MAX_RECORD
    ensures Read2(b, off) == At(off + |Version2(p)|, p)
  {
    hide Holds, Le32, De32, Words, ReadWords;
    HoldsSplit(b, off, Le32(p.lastPush), Le32(|p.traffic|) + Words(p.traffic));
    Read32(b, off, p.lastPush);
    HoldsSplit(b, off + 4, Le32(|p.traffic|), Words(p.traffic));
    Read32(b, off + 4, |p.traffic|);
    ReadsWords(b, off + 8, p.traffic);
  }

  lemma Read64(b: seq<Byte>, o: nat, n: Uint64)
    requires Holds(b, o, Le64(n))
    ensures |Le64(n)| == 8 && o + 8 <= |b| && De32(b, o) + TWO_32 * De32(b, o + 4) == n
  {
    HoldsSplit(b, o, Le32(n % TWO_32), Le32(n / TWO_32));
    Read32(b, o, n % TWO_32);
    Read32(b, o + 4, n / TWO_32);
  }

  lemma Reads3(b: seq<Byte>, off: nat, p: Part3)
    requires Holds(b, off, Version3(p))
    ensures Read3(b, off) == At(off + |Version3(p)|, p)
  {
    hide Holds, Le32, De32, Le64, Str, ReadStr;
    var tail := Le32(p.duration) + (Le64(p.lastWrite) + Le32(p.dataRate));
    HoldsSplit(b, off, [p.downMode], Str(p.webUrl) + tail);
    ReadByte(b, off, p.downMode);
    HoldsSplit(b, off + 1, Str(p.webUrl), tail);
    ReadsStr(b, off + 1, p.webUrl);
    var o := off + 1 + |Str(p.webUrl)|;
    HoldsSplit(b, o, Le32(p.duration), Le64(p.lastWrite) + Le32(p.dataRate));
    Read32(b, o, p.duration);
    HoldsSplit(b, o + 4, Le64(p.lastWrite), Le32(p.dataRate));
    Read64(b, o + 4, p.lastWrite);
    Read32(b, o + 12, p.dataRate);
  }

  lemma Reads5(b: seq<Byte>, off: nat, p: Part5)
    requires Holds(b, off, Version5(p))
    ensures Read5(b, off) == At(off + |Version5(p)|, p)
  {
    hide Holds, Le32, De32, Str, ReadStr;
    HoldsSplit(b, off, Str(p.fileName), Le32(p.openService));
    ReadsStr(b, off, p.fileName);
    Read32(b, off + |Str(p.fileName)|, p.openService);
  }

  lemma Reads7(b: seq<Byte>, off: nat, x: Info, isPush: Byte)
    requires Holds(b, off, Version7(x)) && |b| < MAX_RECORD && Filled(x.v1)
    ensures Read7(b, off, isPush) == At(off + |Version7(x)|, x.(v1 := Stored(x.v1), isPush := isPush))
  {
    hide Version1, Version2, Version3, Version5, Read1, Read2, Read3, Read5;
    var s1, s2, s3, s5 := Version1(x.v1), Version2(x.v2), Version3(x.v3), Version5(x.v5);
    HoldsSplit(b, off, s1, s2 + (s3 + s5));
    Reads1(b, off, x.v1);
    HoldsSplit(b, off + |s1|, s2, s3 + s5);
    Reads2(b, off + |s1|, x.v2);
    HoldsSplit(b, off + |s1| + |s2|, s3, s5);
    Reads3(b, off + |s1| + |s2|, x.v3);
    Reads5(b, off + |s1| + |s2| + |s3|, x.v5);
  }

  // ---------------------------------------------------------------------------------------
  // Whole records

  /** Version 8: every field comes back and the reader stops at the end of the buffer. */
  lemma RoundTrip(x: Info, isPush: Byte)
    requires 4 + |Record(x)| < MAX_RECORD && Filled(x.v1)
    ensures Decode(Encode(x), 8, isPush) == At(|Encode(x)|, x.(v1 := Stored(x.v1)))
  {
    hide Version7, Read7;
    var b := Encode(x);
    assert b[0..4] == Le32(|b|) && b[4..4 + |Record(x)|] == Record(x);
    Read32(b, 0, |b|);
    HoldsSplit(b, 4, Version7(x), [x.isPush]);
    Reads7(b, 4, x, isPush);
    ReadByte(b, 4 + |Version7(x)|, x.isPush);
  }

  /** Version 7: without the last byte, and with the length made to match, only `isPush` is missing. */
  lemma OlderVersion(x: Info, isPush: Byte, version: nat)
    requires 4 + |Record(x)| < MAX_RECORD && Filled(x.v1) && (version == 6 || version == 7)
    ensures var b := Le32(4 + |Version7(x)|) + Version7(x);
            && b[4..] == Encode(x)[4..|Encode(x)| - 1]
            && Decode(b, version, isPush) == At(|b|, x.(v1 := Stored(x.v1), isPush := isPush))
  {
    hide Version7, Read7;
    var b := Le32(4 + |Version7(x)|) + Version7(x);
    assert b[0..4] == Le32(|b|) && b[4..4 + |Version7(x)|] == Version7(x);
    Read32(b, 0, |b|);
    Reads7(b, 4, x, isPush);
  }

  /** Nothing is accepted but a buffer of a possible size that begins with its own length, under a version that is known. */
  lemma AcceptsOnly(b: seq<Byte>, version: nat, isPush: Byte)
    requires version >= 6 && Decode(b, version, isPush).At?
    ensures 4 <= |b| < MAX_RECORD && De32(b, 0) == |b| && version <= 8
  {
    hide Read7;
  }

  // The bytes of one record in which every field has a value of its own

  function SomeInfo(rid: Hash, md5: Hash): Info {
    Info(Part1([65], RidInfo(rid, 1, 1, 2), [md5], [Url(3, [66], [67])]), Part2(4, [5]),
         Part3(6, [68], 7, 0x9_0000_0008, 10), Part5([69], 11), 12)
  }

  lemma SmallWord(n: int)
    requires 0 <= n < 256
    ensures Le32(n) == [n, 0, 0, 0]
  {
  }

  lemma SomeUrlBytes()
    ensures Urls([Url(3, [66], [67])]) == [3, 0, 1, 0, 0, 0, 66, 1, 0, 0, 0, 67]
  {
    hide Le32;
    SmallWord(1);
    var u := Url(3, [66], [67]);
    assert [u][1..] == [];
    assert UrlBytes(u) == [3, 0] + [1, 0, 0, 0, 66] + [1, 0, 0, 0, 67];
    assert Urls([u]) == UrlBytes(u) + [] == UrlBytes(u);
  }

  lemma SomeRidBytes(rid: Hash)
    ensures Rid(RidInfo(rid, 1, 1, 2)) == rid + [1, 0, 0, 0, 1, 0, 0, 0, 2, 0, 0, 0]
  {
    hide Le32;
    SmallWord(1);
    SmallWord(2);
  }

  lemma SomeBytes1(rid: Hash, md5: Hash)
    ensures Version1(SomeInfo(rid, md5).v1) ==
            [1, 0, 0, 0, 65] + rid + [1, 0, 0, 0, 1, 0, 0, 0, 2, 0, 0, 0] + md5
            + [1, 0, 0, 0, 3, 0, 1, 0, 0, 0, 66, 1, 0, 0, 0, 67]
  {
    hide Le32, Urls, Rid;
    SmallWord(1);
    SomeUrlBytes();
    SomeRidBytes(rid);
    var p := SomeInfo(rid, md5).v1;
    assert Padded(p) == [md5] && [md5][1..] == [];
    assert Join([md5]) == md5 + [] == md5;
    assert Str(p.path) == [1, 0, 0, 0, 65];
  }

  lemma SomeBytes2(p: Part2)
    requires p == Part2(4, [5])
    ensures Version2(p) == [4, 0, 0, 0, 1, 0, 0, 0, 5, 0, 0, 0]
  {
    hide Le32;
    SmallWord(1);
    SmallWord(4);
    SmallWord(5);
    assert [5][1..] == [];
    assert Words([5]) == Le32(5) + Words([]) == [5, 0, 0, 0];
  }

  lemma SomeBytes3(p: Part3)
    requires p == Part3(6, [68], 7, 0x9_0000_0008, 10)
    ensures Version3(p) == [6, 1, 0, 0, 0, 68, 7, 0, 0, 0, 8, 0, 0, 0, 9, 0, 0, 0, 10, 0, 0, 0]
  {
    hide Le32;
    SmallWord(1);
    SmallWord(7);
    SmallWord(8);
    SmallWord(9);
    SmallWord(10);
    assert Le64(p.lastWrite) == [8, 0, 0, 0, 9, 0, 0, 0];
    assert Str(p.webUrl) == [1, 0, 0, 0, 68];
  }

  lemma SomeBytes5(p: Part5)
    requires p == Part5([69], 11)
    ensures Version5(p) == [1, 0, 0, 0, 69, 11, 0, 0, 0]
  {
    hide Le32;
    SmallWord(1);
    SmallWord(11);
  }

  /** Every field stands where the format has it, low byte first. */
  lemma SomeBytes(rid: Hash, md5: Hash)
    ensures |Record(SomeInfo(rid, md5))| == 109
    ensures Encode(SomeInfo(rid, md5)) ==
            [113, 0, 0, 0]
            + ([1, 0, 0, 0, 65] + rid + [1, 0, 0, 0, 1, 0, 0, 0, 2, 0, 0, 0] + md5
               + [1, 0, 0, 0, 3, 0, 1, 0, 0, 0, 66, 1, 0, 0, 0, 67])
            + [4, 0, 0, 0, 1, 0, 0, 0, 5, 0, 0, 0]
            + [6, 1, 0, 0, 0, 68, 7, 0, 0, 0, 8, 0, 0, 0, 9, 0, 0, 0, 10, 0, 0, 0]
            + [1, 0, 0, 0, 69, 11, 0, 0, 0] + [12]
  {
    hide Version1, Version2, Version3, Version5, Le32;
    SomeBytes1(rid, md5);
    var x := SomeInfo(rid, md5);
    SomeBytes2(x.v2);
    SomeBytes3(x.v3);
    SomeBytes5(x.v5);
    SmallWord(113);
  }

  /** The writer's list has the announced length exactly when it had it before or was empty. */
  lemma FilledIff(p: Part1)
    ensures Filled(p) <==> |p.md5s| == p.ridInfo.blockCount || p.md5s == []
  {
  }

  /** One digest of two is not filled up, and such a record does not come back. */
  lemma HalfFilled(x: Info, md5: Hash, isPush: Byte)
    requires x.v1.ridInfo.blockCount == 2 && x.v1.md5s == [md5] && 4 + |Record(x)| < MAX_RECORD
    ensures Padded(x.v1) == [md5] && !Filled(x.v1)
    ensures Decode(Encode(x), 8, isPush) != At(|Encode(x)|, x)
  {
    hide Record, Decode, Encode;
    RoundTripIff(x, isPush);
  }

  lemma {:induction false} JoinSize(ms: seq<Hash>)
    ensures |Join(ms)| == 16 * |ms|
    decreases |ms|
  {
    if ms != [] {
      JoinSize(ms[1..]);
    }
  }

  /** The count of digests in a buffer whose path ends at `o`. */
  function CountAt(b: seq<Byte>, o: nat): nat
    requires o + 28 <= |b|
  {
    De32(b, o + 20)
  }

  /**
   Exactly which buffers make the reader run past their end: those whose count of digests, or else
   whose length of the traffic list, passes the size test by wrapping around in 32 bits.
   */
  lemma OverrunsIff(b: seq<Byte>, version: nat, isPush: Byte)
    requires version >= 6
    ensures Decode(b, version, isPush).Overrun? <==>
            && 4 <= |b| < MAX_RECORD && De32(b, 0) == |b|
            && var path, first := ReadStr(b, 4), Read1(b, 4);
            || (path.At? && path.off + 28 <= |b| && Wraps(b, path.off + 28, CountAt(b, path.off), 16))
            || (first.At? && first.off + 8 <= |b| && Wraps(b, first.off + 8, De32(b, first.off + 4), 4))
  {
    hide ReadStr, ReadUrls, ReadMd5s, ReadWords, De32, Read3, Read5;
  }

  /** No buffer does whose count and length are what a buffer of that size could hold. */
  lemma SmallNeverWraps(b: seq<Byte>, at: nat, n: nat, entry: nat)
    requires |b| < MAX_RECORD && at + entry * n < TWO_32
    ensures !Wraps(b, at, n, entry)
  {
  }

  /** Any complete first section with a list of 2^30 announced behind it does. */
  lemma ListOverruns(p: Part1, lastPush: Uint32, version: nat, isPush: Byte)
    requires version >= 6 && Filled(p) && 12 + |Version1(p)| < MAX_RECORD
    ensures var rest := Version1(p) + (Le32(lastPush) + Le32(0x4000_0000));
            Decode(Le32(4 + |rest|) + rest, version, isPush) == Overrun
  {
    hide Version1, Read1, Le32, De32, Read3, Read5, ReadWords;
    var first, tail := Version1(p), Le32(lastPush) + Le32(0x4000_0000);
    var b := Le32(4 + |first + tail|) + (first + tail);
    assert b[0..4] == Le32(|b|) && b[4..4 + |first + tail|] == first + tail;
    Read32(b, 0, |b|);
    HoldsSplit(b, 4, first, tail);
    Reads1(b, 4, p);
    var o := 4 + |first|;
    HoldsSplit(b, o, Le32(lastPush), Le32(0x4000_0000));
    Read32(b, o + 4, 0x4000_0000);
    assert Wraps(b, o + 8, 0x4000_0000, 4);
    assert Read2(b, o) == Overrun;
  }

  /** With more digests than announced the writer goes on for at least two thousand million entries. */
  lemma TooManyDigests(p: Part1)
    requires |p.md5s| > p.ridInfo.blockCount
    ensures |Padded(p)| >= HALF && |Version1(p)| >= 16 * HALF
  {
    JoinSize(Padded(p));
    hide Str, Rid, Join, Urls;
    var have, n := |p.md5s|, p.ridInfo.blockCount;
    if have - n < TWO_32 {
      assert (n - have) % TWO_32 == TWO_32 + n - have;
    }
  }

  lemma {:induction false} NarrowIsSame(us: seq<Url>)
    requires forall k :: 0 <= k < |us| ==> us[k].kind < 256
    ensures NarrowAll(us) == us
    decreases |us|
  {
    if us != [] {
      NarrowIsSame(us[1..]);
      assert Narrow(us[0]) == us[0];
      assert us == [us[0]] + us[1..];
    }
  }

  /** A record comes back unchanged exactly when all digests are there and every url type fits a byte. */
  lemma RoundTripIff(x: Info, isPush: Byte)
    requires 4 + |Record(x)| < MAX_RECORD
    ensures Decode(Encode(x), 8, isPush) == At(|Encode(x)|, x) <==> Exact(x.v1)
  {
    hide Record, Read7;
    if Exact(x.v1) {
      NarrowIsSame(x.v1.urls);
      assert Padded(x.v1) == x.v1.md5s;
      RoundTrip(x, isPush);
    }
  }

  // ---------------------------------------------------------------------------------------
  // The writing method: the buffer is doubled until a section fits with room to spare

  method Reserve(capacity: nat, used: nat, dataLen: nat) returns (c: nat)
    requires capacity > 0
    ensures used + dataLen + 256 <= c && (c == capacity || c < 2 * (used + dataLen + 256))
  {
    c := capacity;
    while used + dataLen + 256 > c
      invariant c == capacity || (capacity < c < 2 * (used + dataLen + 256))
      decreases used + dataLen + 256 - c
    {
      c := c + c;
    }
  }

  /** The checked copy stops the program when the destination is too small or absurdly large. */
  method Put(out: seq<Byte>, capacity: nat, part: seq<Byte>) returns (r: seq<Byte>)
    requires |out| + |part| <= capacity && capacity <= 0x3FFF_FFFF
    ensures r == out + part
  {
    r := out + part;
  }

  lemma PaddedParts(p: Part1)
    requires |p.md5s| <= p.ridInfo.blockCount
    ensures var list, missing := Padded(p), p.ridInfo.blockCount - |p.md5s|;
            && |list| == (if |p.md5s| < missing then missing else |p.md5s|)
            && (forall k :: 0 <= k < |p.md5s| ==> list[k] == p.md5s[k])
            && (forall k :: |p.md5s| <= k < |list| ==> list[k] == NO_HASH)
  {
  }

  method PutDigests(out: seq<Byte>, capacity: nat, p: Part1) returns (r: seq<Byte>)
    requires |p.md5s| <= p.ridInfo.blockCount
    requires |out| + 16 * p.ridInfo.blockCount <= capacity <= 0x3FFF_FFFF
    ensures r == out + Join(Padded(p))
  {
    hide Padded, Join;
    r := out;
    var i := 0;
    ghost var list := Padded(p);
    PaddedParts(p);
    assert list[0..] == list;
    while i < |p.md5s|
      invariant 0 <= i <= |p.md5s| && |r| == |out| + 16 * i
      invariant r + Join(list[i..]) == out + Join(list)
    {
      JoinNext(list, i, r);
      r := Put(r, capacity, p.md5s[i]);
      i := i + 1;
    }
    while i < p.ridInfo.blockCount - |p.md5s|
      invariant |p.md5s| <= i <= |list| && |r| == |out| + 16 * i
      invariant r + Join(list[i..]) == out + Join(list)
    {
      JoinNext(list, i, r);
      r := Put(r, capacity, NO_HASH);
      i := i + 1;
    }
    JoinNothing();
    assert list[i..] == [] && r + [] == r;
  }

  lemma JoinNothing()
    ensures Join([]) == []
  {
  }

  lemma JoinNext(list: seq<Hash>, i: nat, r: seq<Byte>)
    requires i < |list|
    ensures r + Join(list[i..]) == r + list[i] + Join(list[i + 1..])
  {
    assert list[i..][1..] == list[i + 1..];
    assert r + (list[i] + Join(list[i + 1..])) == r + list[i] + Join(list[i + 1..]);
  }

  method PutUrls(out: seq<Byte>, capacity: nat, us: seq<Url>) returns (r: seq<Byte>, c: nat)
    requires |out| + 256 <= capacity && 0 < capacity <= 0x3FFF_FFFF
    requires 2 * (|out| + |Urls(us)| + 256) <= 0x3FFF_FFFF
    ensures r == out + Urls(us)
    ensures |r| + 256 <= c <= 0x3FFF_FFFF
  {
    r, c := out, capacity;
    assert us[0..] == us;
    for i := 0 to |us|
      invariant |r| + 256 <= c <= 0x3FFF_FFFF
      invariant r + Urls(us[i..]) == out + Urls(us)
    {
      UrlsNext(us, i, r);
      c := Reserve(c, |r|, 2 + 4 + |us[i].url| + 4 + |us[i].refer|);
      r := Put(r, c, Le16(us[i].kind));
      r := Put(r, c, Le32(|us[i].url|));
      r := Put(r, c, us[i].url);
      r := Put(r, c, Le32(|us[i].refer|));
      r := Put(r, c, us[i].refer);
    }
    assert us[|us|..] == [];
    assert r + [] == r;
  }

  lemma UrlsNext(us: seq<Url>, i: nat, r: seq<Byte>)
    requires i < |us|
    ensures r + Urls(us[i..]) == r + Le16(us[i].kind) + Le32(|us[i].url|) + us[i].url + Le32(|us[i].refer|) + us[i].refer
                                 + Urls(us[i + 1..])
  {
    var u := us[i];
    assert us[i..][1..] == us[i + 1..];
    assert UrlBytes(u) == Le16(u.kind) + Le32(|u.url|) + u.url + Le32(|u.refer|) + u.refer;
    assert r + (UrlBytes(u) + Urls(us[i + 1..])) == r + UrlBytes(u) + Urls(us[i + 1..]);
    assert r + UrlBytes(u) == r + Le16(u.kind) + Le32(|u.url|) + u.url + Le32(|u.refer|) + u.refer;
  }

  method PutWords(out: seq<Byte>, capacity: nat, ws: seq<Uint32>) returns (r: seq<Byte>)
    requires |out| + 4 * |ws| <= capacity <= 0x3FFF_FFFF
    ensures r == out + Words(ws)
  {
    r := out;
    assert ws[0..] == ws;
    for i := 0 to |ws|
      invariant |r| == |out| + 4 * i
      invariant r + Words(ws[i..]) == out + Words(ws)
    {
      WordsNext(ws, i, r);
      r := Put(r, capacity, Le32(ws[i]));
    }
    assert ws[|ws|..] == [];
    assert r + [] == r;
  }

  lemma WordsNext(ws: seq<Uint32>, i: nat, r: seq<Byte>)
    requires i < |ws|
    ensures r + Words(ws[i..]) == r + Le32(ws[i]) + Words(ws[i + 1..])
  {
    assert ws[i..][1..] == ws[i + 1..];
    assert r + (Le32(ws[i]) + Words(ws[i + 1..])) == r + Le32(ws[i]) + Words(ws[i + 1..]);
  }

  /** Room for a section of `n` bytes after `used`, also once the buffer has been doubled past it. */
  predicate Room(used: nat, n: nat) {
    2 * (used + n + 256) <= 0x3FFF_FFFF
  }

  method PutStr(out: seq<Byte>, capacity: nat, s: Text) returns (r: seq<Byte>)
    requires |out| + 4 + |s| <= capacity <= 0x3FFF_FFFF
    ensures r == out + Str(s)
  {
    r := Put(out, capacity, Le32(|s|));
    r := Put(r, capacity, s);
  }

  method Put1(out: seq<Byte>, capacity: nat, p: Part1) returns (r: seq<Byte>, c: nat)
    requires |p.md5s| <= p.ridInfo.blockCount && 0 < capacity <= 0x3FFF_FFFF
    requires Room(|out|, |Version1(p)| + 16 * p.ridInfo.blockCount)
    ensures r == out + Version1(p) && |r| + 256 <= c <= 0x3FFF_FFFF
  {
    hide Le32, Rid, Join, Padded, Urls, Str;
    RidSize(p.ridInfo);
    StrSize(p.path);
    c := Reserve(capacity, |out|, 4 + |p.path|);
    r := PutStr(out, c, p.path);
    c := Reserve(c, |r|, 28);
    r := Put(r, c, Rid(p.ridInfo));
    c := Reserve(c, |r|, 16 * p.ridInfo.blockCount);
    r := PutDigests(r, c, p);
    c := Reserve(c, |r|, 4);
    r := Put(r, c, Le32(|p.urls|));
    r, c := PutUrls(r, c, p.urls);
    assert r == out + Version1(p);
  }

  lemma RidSize(r: RidInfo)
    ensures |Rid(r)| == 28
  {
  }

  lemma StrSize(s: Text)
    ensures |Str(s)| == 4 + |s|
  {
  }

  lemma {:induction false} WordsSize(ws: seq<Uint32>)
    ensures |Words(ws)| == 4 * |ws|
    decreases |ws|
  {
    if ws != [] {
      WordsSize(ws[1..]);
    }
  }

  method Put2(out: seq<Byte>, capacity: nat, p: Part2) returns (r: seq<Byte>, c: nat)
    requires 0 < capacity <= 0x3FFF_FFFF && Room(|out|, |Version2(p)|)
    ensures r == out + Version2(p) && |r| + 256 <= c <= 0x3FFF_FFFF
  {
    hide Le32, Words;
    WordsSize(p.traffic);
    c := Reserve(capacity, |out|, 4 + 4 + 4 * |p.traffic|);
    r := Put(out, c, Le32(p.lastPush));
    r := Put(r, c, Le32(|p.traffic|));
    r := PutWords(r, c, p.traffic);
    assert r == out + Version2(p);
  }

  method Put3(out: seq<Byte>, capacity: nat, p: Part3) returns (r: seq<Byte>, c: nat)
    requires 0 < capacity <= 0x3FFF_FFFF && Room(|out|, |Version3(p)|)
    ensures r == out + Version3(p) && |r| + 256 <= c <= 0x3FFF_FFFF
  {
    hide Le32, Str;
    StrSize(p.webUrl);
    c := Reserve(capacity, |out|, 1 + 4 + |p.webUrl| + 4 + 8 + 4);
    r := Put(out, c, [p.downMode]);
    r := PutStr(r, c, p.webUrl);
    r := Put(r, c, Le32(p.duration));
    r := Put(r, c, Le64(p.lastWrite));
    r := Put(r, c, Le32(p.dataRate));
    assert r == out + Version3(p);
  }

  method Put5(out: seq<Byte>, capacity: nat, p: Part5) returns (r: seq<Byte>, c: nat)
    requires 0 < capacity <= 0x3FFF_FFFF && Room(|out|, |Version5(p)|)
    ensures r == out + Version5(p) && |r| + 256 <= c <= 0x3FFF_FFFF
  {
    hide Le32, Str;
    StrSize(p.fileName);
    c := Reserve(capacity, |out|, 4 + |p.fileName|);
    r := PutStr(out, c, p.fileName);
    c := Reserve(c, |r|, 4);
    r := Put(r, c, Le32(p.openService));
    assert r == out + Version5(p);
  }

  /** The whole record; its length, reserved at the front, is filled in at the end. */
  method ToBuffer(x: Info) returns (b: seq<Byte>)
    requires Room(4, |Record(x)| + 16 * x.v1.ridInfo.blockCount)
    ensures b == Encode(x)
  {
    hide Version1, Version2, Version3, Version5;
    if |x.v1.md5s| > x.v1.ridInfo.blockCount {
      TooManyDigests(x.v1);
    }
    var zero: seq<Byte> := [0, 0, 0, 0];
    var r, c := Put1(zero, 1024, x.v1);
    r, c := Put2(r, c, x.v2);
    r, c := Put3(r, c, x.v3);
    r, c := Put5(r, c, x.v5);
    c := Reserve(c, |r|, 1);
    r := Put(r, c, [x.isPush]);
    assert r == zero + Record(x);
    b := Le32(|r|) + r[4..];
  }

  // ---------------------------------------------------------------------------------------
  // The reading method

  lemma Md5sNext(b: seq<Byte>, off: nat, n: nat, done: seq<Hash>)
    requires n > 0 && off + 16 * n <= |b|
    ensures done + ReadMd5s(b, off, n).value == done + [b[off..off + 16]] + ReadMd5s(b, off + 16, n - 1).value
  {
  }

  method ParseMd5s(b: seq<Byte>, off: nat, n: nat) returns (offset: nat, md5s: seq<Hash>)
    requires off + 16 * n <= |b|
    ensures At(offset, md5s) == ReadMd5s(b, off, n)
  {
    hide ReadMd5s;
    offset, md5s := off, [];
    ghost var all := ReadMd5s(b, off, n).value;
    assert [] + all == all;
    for i := 0 to n
      invariant offset == off + 16 * i
      invariant md5s + ReadMd5s(b, offset, n - i).value == all
    {
      Md5sNext(b, offset, n - i, md5s);
      var md5: Hash := b[offset..offset + 16];
      md5s := md5s + [md5];
      offset := offset + 16;
    }
    assert ReadMd5s(b, offset, 0).value == [] && md5s + [] == md5s;
  }

  method ParseUrls(b: seq<Byte>, off: nat, n: nat) returns (ok: bool, offset: nat, urls: seq<Url>)
    requires off <= |b|
    ensures if ok then At(offset, urls) == ReadUrls(b, off, n) else ReadUrls(b, off, n) == Fail
  {
    hide ReadUrl;
    offset, urls := off, [];
    assert var all := ReadUrls(b, off, n); all.At? ==> [] + all.value == all.value;
    for i := 0 to n
      invariant offset <= |b|
      invariant var rest := ReadUrls(b, offset, n - i);
                ReadUrls(b, off, n) == if rest.Fail? then Fail else At(rest.off, urls + rest.value)
    {
      var u := ReadUrl(b, offset);
      if u.Fail? {
        return false, offset, urls;
      }
      ghost var rest := ReadUrls(b, u.off, n - i - 1);
      assert rest.At? ==> urls + ([u.value] + rest.value) == urls + [u.value] + rest.value;
      urls := urls + [u.value];
      offset := u.off;
    }
    assert urls + [] == urls;
    ok := true;
  }

  lemma WordsReadNext(b: seq<Byte>, off: nat, n: nat, done: seq<Uint32>)
    requires n > 0 && off + 4 * n <= |b|
    ensures done + ReadWords(b, off, n).value == done + [De32(b, off)] + ReadWords(b, off + 4, n - 1).value
  {
    hide De32;
  }

  method ParseWords(b: seq<Byte>, off: nat, n: nat) returns (offset: nat, words: seq<Uint32>)
    requires off + 4 * n <= |b|
    ensures At(offset, words) == ReadWords(b, off, n)
  {
    hide ReadWords, De32;
    offset, words := off, [];
    ghost var all := ReadWords(b, off, n).value;
    assert [] + all == all;
    for i := 0 to n
      invariant offset == off + 4 * i
      invariant words + ReadWords(b, offset, n - i).value == all
    {
      WordsReadNext(b, offset, n - i, words);
      words := words + [De32(b, offset)];
      offset := offset + 4;
    }
    assert ReadWords(b, offset, 0).value == [] && words + [] == words;
  }

  method Parse1(b: seq<Byte>, off: nat) returns (c: Cursor<Part1>)
    ensures c == Read1(b, off)
  {
    hide ReadStr, ReadRid, ReadMd5s, ReadUrls;
    var path := ReadStr(b, off);
    if path.Fail? || path.off + 28 > |b| {
      return Fail;
    }
    var ridInfo := ReadRid(b, path.off);
    if !Passes(b, path.off + 28, ridInfo.blockCount, 16) {
      return Fail;
    }
    if path.off + 28 + 16 * ridInfo.blockCount > |b| {
      // the loop below does not stop at the end of the buffer
      return Overrun;
    }
    var offset, md5s := ParseMd5s(b, path.off + 28, ridInfo.blockCount);
    if offset + 4 > |b| {
      return Fail;
    }
    var ok, next, urls := ParseUrls(b, offset + 4, Signed(De32(b, offset)));
    if !ok {
      return Fail;
    }
    c := At(next, Part1(path.value, ridInfo, md5s, urls));
  }

  method Parse2(b: seq<Byte>, off: nat) returns (c: Cursor<Part2>)
    ensures c == Read2(b, off)
  {
    hide ReadWords;
    if off + 8 > |b| {
      return Fail;
    }
    var n: nat := De32(b, off + 4);
    if !Passes(b, off + 8, n, 4) {
      return Fail;
    }
    if off + 8 + 4 * n > |b| {
      return Overrun;
    }
    var offset, words := ParseWords(b, off + 8, n);
    c := At(offset, Part2(De32(b, off), words));
  }

  method Parse(b: seq<Byte>, version: nat, isPush: Byte) returns (c: Cursor<Info>)
    requires version >= 6
    ensures c == Decode(b, version, isPush)
  {
    hide Read1, Read2, Read3, Read5;
    if |b| >= MAX_RECORD || |b| < 4 || De32(b, 0) != |b| {
      return Fail;
    }
    var c1 := Parse1(b, 4);
    if !c1.At? {
      return Miss(c1);
    }
    var c2 := Parse2(b, c1.off);
    if !c2.At? {
      return Miss(c2);
    }
    var c3 := Read3(b, c2.off);
    if c3.Fail? {
      return Fail;
    }
    var c5 := Read5(b, c3.off);
    if c5.Fail? {
      return Fail;
    }
    var x := Info(c1.value, c2.value, c3.value, c5.value, isPush);
    if version == 6 || version == 7 {
      return At(c5.off, x);
    }
    if c5.off + 1 > |b| || version != 8 {
      return Fail;
    }
    c := At(c5.off + 1, x.(isPush := b[c5.off]));
  }
}
