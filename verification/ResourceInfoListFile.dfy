/** The list of all resources: records one after the other, each starting with its own length. */
module ResourceInfoListFiles {
  import opened Bytes
  import opened SecFiles
  import opened FileResourceInfos

  const MAX_ITEM: nat := 10 * 1024

  /** A record that `GetResourceInfo` can give back: complete, and within its size limit. */
  predicate Listable(x: Info) {
    Exact(x.v1) && 4 + |Record(x)| <= MAX_ITEM
  }

  ghost function Items(list: seq<Info>): seq<Byte>
    requires forall x :: x in list ==> Listable(x)
  {
    if list == [] then []
    else
      hide Record;
      assert list[0] in list && Listable(list[0]);
      Encode(list[0]) + Items(list[1..])
  }

  /** The records that still fit when the file already has `size` bytes; one that does not is dropped silently. */
  function Kept(list: seq<Info>, size: nat): (kept: seq<Info>)
    requires forall x :: x in list ==> Listable(x)
    ensures forall x :: x in kept ==> Listable(x)
  {
    if list == [] then []
    else
      hide Record;
      assert list[0] in list && Listable(list[0]);
      var n := |Encode(list[0])|;
      if size + n < MAX_FILE then [list[0]] + Kept(list[1..], size + n) else Kept(list[1..], size)
  }

  /** Nothing is dropped exactly when all of it fits. */
  lemma {:induction false} KeptAllIff(list: seq<Info>, size: nat)
    requires forall x :: x in list ==> Listable(x)
    requires size < MAX_FILE
    ensures |Kept(list, size)| <= |list|
    ensures Kept(list, size) == list <==> size + |Items(list)| < MAX_FILE
    decreases |list|
  {
    hide Encode, Record;
    if list != [] {
      assert list[0] in list;
      var n := |Encode(list[0])|;
      assert list == [list[0]] + list[1..];
      if size + n < MAX_FILE {
        KeptAllIff(list[1..], size + n);
        assert Kept(list, size)[1..] == Kept(list[1..], size + n);
      } else {
        KeptAllIff(list[1..], size);
      }
    }
  }

  /** Records are tried one after the other: one is kept exactly when it fits behind those kept before it. */
  lemma {:induction false} KeptIfFits(list: seq<Info>, x: Info, size: nat)
    requires (forall y :: y in list ==> Listable(y)) && Listable(x)
    ensures forall y :: y in list + [x] ==> Listable(y)
    ensures Kept(list + [x], size) ==
            Kept(list, size) + if size + |Items(Kept(list, size))| + |Encode(x)| < MAX_FILE then [x] else []
    decreases |list|
  {
    hide Encode, Record;
    if list == [] {
      assert [] + [x] == [x] && [x][1..] == [];
    } else {
      assert list[0] in list;
      assert (list + [x])[1..] == list[1..] + [x];
      var n := |Encode(list[0])|;
      if size + n < MAX_FILE {
        KeptIfFits(list[1..], x, size + n);
        var kept := Kept(list[1..], size + n);
        assert Kept(list, size) == [list[0]] + kept && ([list[0]] + kept)[1..] == kept;
      } else {
        KeptIfFits(list[1..], x, size);
      }
    }
  }

  datatype Item = EndOfFile | Refused | Overran | Got(info: Info, next: nat)

  /** One call of `GetResourceInfo` with the file standing at `pos`. */
  function NextItem(file: seq<Byte>, pos: nat, version: nat, isPush: Byte): (r: Item)
    requires version >= 6
    ensures r.Got? ==> pos + 4 <= r.next <= |file|
  {
    if pos + 4 > |file| then EndOfFile
    else
      var n := De32(file, pos);
      if n > MAX_ITEM || n < 4 || pos + n > |file| then Refused
      else match Decode(file[pos..pos + n], version, isPush)
        case Fail => Refused
        case Overrun => Overran
        case At(_, x) => Got(x, pos + n)
  }

  /** The end is reported exactly when less than a length is left; an impossible length is refused. */
  lemma EndsIff(file: seq<Byte>, pos: nat, version: nat, isPush: Byte)
    requires version >= 6
    ensures NextItem(file, pos, version, isPush).EndOfFile? <==> pos + 4 > |file|
    ensures pos + 4 <= |file| && (De32(file, pos) < 4 || De32(file, pos) > MAX_ITEM || pos + De32(file, pos) > |file|) ==>
              NextItem(file, pos, version, isPush).Refused?
  {
    hide Decode, De32;
  }

  /** A record that stands at `pos` is what the next call returns. */
  lemma GetsItem(file: seq<Byte>, pos: nat, x: Info, isPush: Byte)
    requires Listable(x) && Holds(file, pos, Encode(x))
    ensures NextItem(file, pos, 8, isPush) == Got(x, pos + |Encode(x)|)
  {
    hide Record, Decode;
    var b := Encode(x);
    assert b[0..4] == Le32(|b|);
    HoldsPart(file, pos, b, 0, Le32(|b|));
    Read32(file, pos, |b|);
    RoundTripIff(x, isPush);
  }

  /** And one that is larger than the reader takes is refused. */
  lemma LargeIsRefused(file: seq<Byte>, pos: nat, x: Info, isPush: Byte)
    requires MAX_ITEM < 4 + |Record(x)| < TWO_32 && Holds(file, pos, Encode(x))
    ensures NextItem(file, pos, 8, isPush) == Refused
  {
    hide Record, Decode;
    var b := Encode(x);
    assert b[0..4] == Le32(|b|);
    HoldsPart(file, pos, b, 0, Le32(|b|));
    Read32(file, pos, |b|);
  }

  /** Reading on from `pos` to the end of the file gives back the records that stand there, and then says so. */
  ghost predicate ReadsAll(file: seq<Byte>, pos: nat, list: seq<Info>)
    decreases |list|
  {
    if list == [] then pos == |file|
    else
      var item := NextItem(file, pos, 8, 0);
      && (forall isPush :: NextItem(file, pos, 8, isPush) == item)
      && item.Got? && item.info == list[0] && ReadsAll(file, item.next, list[1..])
  }

  lemma {:induction false} ListReadsBack(file: seq<Byte>, pos: nat, list: seq<Info>)
    requires forall x :: x in list ==> Listable(x)
    requires pos <= |file| && file[pos..] == Items(list)
    ensures ReadsAll(file, pos, list)
    decreases |list|
  {
    hide Encode, Decode, Record, De32, NextItem;
    if list != [] {
      assert list[0] in list;
      var b, rest := Encode(list[0]), Items(list[1..]);
      assert file[pos..pos + |b|] == file[pos..][..|b|] == b;
      assert file[pos + |b|..] == file[pos..][|b|..] == rest;
      forall isPush
        ensures NextItem(file, pos, 8, isPush) == Got(list[0], pos + |b|)
      {
        GetsItem(file, pos, list[0], isPush);
      }
      ListReadsBack(file, pos + |b|, list[1..]);
    }
  }

  lemma ListableHasRoom(x: Info)
    requires Listable(x)
    ensures |x.v1.md5s| <= x.v1.ridInfo.blockCount && Room(4, |Record(x)| + 16 * x.v1.ridInfo.blockCount)
  {
    hide Str, Rid, Urls, Version2, Version3, Version5;
    assert Padded(x.v1) == x.v1.md5s;
    JoinSize(x.v1.md5s);
  }

  lemma ItemsNext(kept: seq<Info>, x: Info)
    requires Listable(x) && forall y :: y in kept ==> Listable(y)
    ensures Items(kept + [x]) == Items(kept) + Encode(x)
    decreases |kept|
  {
    hide Encode, Record;
    if kept == [] {
      assert [] + [x] == [x] && [x][1..] == [];
    } else {
      ItemsNext(kept[1..], x);
      assert (kept + [x])[1..] == kept[1..] + [x];
    }
  }

  lemma FileNext(before: seq<Byte>, kept: seq<Info>, x: Info)
    requires Listable(x) && forall y :: y in kept ==> Listable(y)
    ensures before + Items(kept + [x]) == before + Items(kept) + Encode(x)
  {
    hide Encode, Record, Items;
    ItemsNext(kept, x);
    assert before + (Items(kept) + Encode(x)) == before + Items(kept) + Encode(x);
  }

  lemma KeptNext(list: seq<Info>, i: nat, done: seq<Info>, size: nat)
    requires i < |list| && forall x :: x in list ==> Listable(x)
    requires Listable(list[i])
    ensures var n := |Encode(list[i])|;
            done + Kept(list[i..], size) ==
            if size + n < MAX_FILE then done + [list[i]] + Kept(list[i + 1..], size + n) else done + Kept(list[i + 1..], size)
  {
    hide Encode, Record;
    var n := |Encode(list[i])|;
    assert list[i..][1..] == list[i + 1..];
    assert done + ([list[i]] + Kept(list[i + 1..], size + n)) == done + [list[i]] + Kept(list[i + 1..], size + n);
  }

  lemma KeptNone(list: seq<Info>, done: seq<Info>, size: nat)
    requires forall x :: x in list ==> Listable(x)
    ensures done + Kept(list[|list|..], size) == done
  {
    assert list[|list|..] == [];
  }

  lemma ItemsOfNone()
    ensures Items([]) == []
  {
  }

  /** Of the first `i` records, those in `done` stand behind what was there before, and were the ones to keep. */
  ghost predicate Added(file: seq<Byte>, before: seq<Byte>, done: seq<Info>, list: seq<Info>, i: nat)
    requires i <= |list| && forall x :: x in list ==> Listable(x)
  {
    && (forall x :: x in done ==> Listable(x))
    && file == before + Items(done) && done + Kept(list[i..], |file|) == Kept(list, |before|)
  }

  lemma AddedNothing(before: seq<Byte>, list: seq<Info>)
    requires forall x :: x in list ==> Listable(x)
    ensures Added(before, before, [], list, 0)
  {
    hide Kept;
    assert list[0..] == list && before + [] == before;
    ItemsOfNone();
  }

  lemma AddedNext(file: seq<Byte>, before: seq<Byte>, done: seq<Info>, list: seq<Info>, i: nat)
    requires (forall x :: x in list ==> Listable(x)) && i < |list| && Added(file, before, done, list, i)
    ensures Listable(list[i])
    ensures if |file| + |Encode(list[i])| < MAX_FILE then Added(file + Encode(list[i]), before, done + [list[i]], list, i + 1)
            else Added(file, before, done, list, i + 1)
  {
    hide Encode, Record, Kept, Items;
    assert list[i] in list;
    FileNext(before, done, list[i]);
    KeptNext(list, i, done, |file|);
  }

  lemma AddedAll(file: seq<Byte>, before: seq<Byte>, done: seq<Info>, list: seq<Info>)
    requires (forall x :: x in list ==> Listable(x)) && |before| >= HEAD && Added(file, before, done, list, |list|)
    ensures |file| >= HEAD && file[HEAD..] == before[HEAD..] + Items(Kept(list, |before|))
  {
    hide Kept, Items;
    KeptNone(list, done, |file|);
    WriteKeepsHead(before, Items(done));
  }

  class ResourceInfoListFile {
    const sec: SecFile

    constructor (sec: SecFile)
      ensures this.sec == sec
    {
      this.sec := sec;
    }

    method AddResourceInfo(list: seq<Info>)
      requires sec.Writing() && forall x :: x in list ==> Listable(x)
      modifies sec, sec.disk
      ensures sec.Writing()
      ensures sec.disk.bytes[HEAD..] == old(sec.disk.bytes)[HEAD..] + Items(Kept(list, |old(sec.disk.bytes)|))
    {
      hide Encode, Record, De32, Listable, Verifies, Kept, Items, Added;
      ghost var before := sec.disk.bytes;
      ghost var done: seq<Info> := [];
      AddedNothing(before, list);
      for i := 0 to |list|
        invariant sec.Writing() && Added(sec.disk.bytes, before, done, list, i)
      {
        AddedNext(sec.disk.bytes, before, done, list, i);
        var ok := AddOne(list[i]);
        if ok {
          done := done + [list[i]];
        }
      }
      AddedAll(sec.disk.bytes, before, done, list);
    }

    /** One turn of the loop. */
    method AddOne(x: Info) returns (ok: bool)
      requires sec.Writing() && Listable(x)
      modifies sec, sec.disk
      ensures sec.Writing() && (ok <==> |old(sec.disk.bytes)| + |Encode(x)| < MAX_FILE)
      ensures sec.disk.bytes == if ok then old(sec.disk.bytes) + Encode(x) else old(sec.disk.bytes)
    {
      hide Encode, Record, De32, Listable, Exact, Room, Verifies;
      ListableShort(x);
      ListableHasRoom(x);
      var buf := ToBuffer(x);
      ok := sec.SecWrite(buf);
    }

    method GetResourceInfo(isPush: Byte) returns (item: Item)
      requires sec.Reading() && sec.headVersion >= 6
      modifies sec`pos
      ensures sec.Reading()
      ensures item == NextItem(sec.disk.bytes, old(sec.pos), sec.headVersion, isPush)
      ensures item.Got? ==> sec.pos == item.next
    {
      hide De32, Verifies, Decode;
      ghost var file, start := sec.disk.bytes, sec.pos;
      var head := sec.SecRead(4);
      if |head| != 4 {
        return EndOfFile;
      }
      De32Slice(file, start);
      var n := De32(head, 0);
      if n > MAX_ITEM || n < 4 {
        return Refused;
      }
      var rest := sec.SecRead(n - 4);
      if |rest| != n - 4 {
        return Refused;
      }
      assert head + rest == file[start..start + n];
      var c := Parse(head + rest, sec.headVersion, isPush);
      item := if c.Fail? then Refused else if c.Overrun? then Overran else Got(c.value, sec.pos);
    }
  }

  lemma ListableShort(x: Info)
    requires Listable(x)
    ensures |Encode(x)| <= MAX_ITEM
  {
  }

  /** Calls until the end is reported. */
  method LoadAll(reader: ResourceInfoListFile, ghost list: seq<Info>) returns (loaded: seq<Info>)
    requires reader.sec.Reading() && reader.sec.headVersion == 8
    requires ReadsAll(reader.sec.disk.bytes, reader.sec.pos, list)
    modifies reader.sec`pos
    ensures loaded == list
  {
    hide NextItem, ReadsAll, Verifies, De32;
    loaded := [];
    var more := true;
    ghost var rest := list;
    while more
      invariant reader.sec.Reading() && loaded + rest == list
      invariant if more then ReadsAll(reader.sec.disk.bytes, reader.sec.pos, rest) else rest == []
      decreases more, |reader.sec.disk.bytes| - reader.sec.pos
    {
      EndIsSeen(reader.sec.disk.bytes, reader.sec.pos, rest);
      var item := reader.GetResourceInfo(0);
      match item
      case EndOfFile => more := false;
      case Refused => more := false;
      case Overran => more := false;
      case Got(x, _) =>
        assert loaded + [x] + rest[1..] == loaded + rest;
        loaded := loaded + [x];
        rest := rest[1..];
    }
  }

  lemma EndIsSeen(file: seq<Byte>, pos: nat, rest: seq<Info>)
    requires ReadsAll(file, pos, rest)
    ensures rest == [] <==> !NextItem(file, pos, 8, 0).Got?
    ensures rest != [] ==> NextItem(file, pos, 8, 0).info == rest[0]
    ensures rest != [] ==> ReadsAll(file, NextItem(file, pos, 8, 0).next, rest[1..])
  {
  }

  /** Write a list, close, open, and call until the end is reported: what was kept comes back in order. */
  method SaveAndLoad(hash: seq<Byte> -> Hash, key: seq<Byte>, stamp: Uint64, list: seq<Info>)
    returns (ok: bool, loaded: seq<Info>)
    requires forall x :: x in list ==> Listable(x)
    ensures ok && loaded == Kept(list, HEAD)
    ensures HEAD + |Items(list)| < MAX_FILE ==> loaded == list
  {
    hide De32, Header, Sign, Verifies, Listable, NextItem, Items, Kept, ReadsAll;
    var disk := new DiskFile();
    var file := new SecFile(hash, key, disk);
    var writer := new ResourceInfoListFile(file);
    file.SecCreate(stamp);
    assert disk.bytes[HEAD..] == [];
    writer.AddResourceInfo(list);
    file.SecClose();
    ghost var kept := Kept(list, HEAD);
    assert [] + Items(kept) == Items(kept);
    KeptAllIff(list, HEAD);
    ListReadsBack(disk.bytes, HEAD, kept);
    file := new SecFile(hash, key, disk);
    ok := file.SecOpen();
    var reader := new ResourceInfoListFile(file);
    loaded := LoadAll(reader, kept);
  }
}
