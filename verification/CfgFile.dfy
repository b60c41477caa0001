/** The configuration file of one resource: size and name of the resource, then one block of contents. */
module CfgFiles {
  import opened Bytes
  import opened SecFiles

  function CfgHead(size: Uint32, name: Text): (h: seq<Byte>)
    ensures |h| == 8 + |name|
  {
    Le32(size) + Le32(|name|) + name
  }

  /** What `SecOpen` accepts: a verifying file of a current version that names the resource asked for. */
  predicate Names(file: seq<Byte>, path: Text) {
    && |file| >= HEAD + 8 && De32(file, 0) >= 7
    && De32(file, HEAD + 4) == |path| && HEAD + 8 + |path| <= |file|
    && file[HEAD + 8..HEAD + 8 + |path|] == path
  }

  class CfgFile {
    const sec: SecFile
    var resourceFileSize: Uint32
    var resourceFileName: seq<Byte>
    var cfgHeadLen: int

    constructor (sec: SecFile)
      ensures this.sec == sec && cfgHeadLen == 0
    {
      this.sec := sec;
      resourceFileSize, resourceFileName, cfgHeadLen := 0, [], 0;
    }

    method SecCreate(path: Text, size: Uint32, stamp: Uint64) returns (ok: bool)
      requires !sec.isOpen && sec.headMd5 == NO_HASH
      requires |path| < TWO_32 - MAX_FILE
      modifies this, sec, sec.disk
      ensures ok <==> HEAD + 8 + |path| < MAX_FILE
      ensures ok ==> sec.Writing() && sec.disk.bytes[HEAD..] == CfgHead(size, path)
      ensures ok ==> resourceFileSize == size && resourceFileName == path && cfgHeadLen == old(cfgHeadLen)
      ensures !ok ==> !sec.isOpen
    {
      hide De32, Le32, Header, Sign, Verifies;
      sec.SecCreate(stamp);
      WriteKeepsHead(sec.disk.bytes, Le32(size));
      ok := sec.SecWrite(Le32(size));
      WriteKeepsHead(sec.disk.bytes, Le32(|path|));
      ok := sec.SecWrite(Le32(|path|));
      WriteKeepsHead(sec.disk.bytes, path);
      ok := sec.SecWrite(path);
      if !ok {
        SecClose();
        return;
      }
      resourceFileSize, resourceFileName := size, path;
    }

    method SecClose()
      requires sec.Writing() || sec.Reading() || sec.crash || !sec.isOpen
      modifies this, sec, sec.disk
      ensures !sec.isOpen && sec.headMd5 == old(sec.headMd5) && cfgHeadLen == 0
      ensures sec.disk.bytes == if old(sec.Writing()) then Sign(sec.hash, sec.key, old(sec.disk.bytes)) else old(sec.disk.bytes)
      ensures old(sec.Writing()) ==> Verifies(sec.hash, sec.key, sec.disk.bytes) && |sec.disk.bytes| < MAX_FILE
      ensures old(sec.Writing()) ==>
                sec.disk.bytes[HEAD..] == old(sec.disk.bytes)[HEAD..] && De32(sec.disk.bytes, 0) == VERSION_NOW
    {
      resourceFileSize, resourceFileName, cfgHeadLen := 0, [], 0;
      sec.SecClose();
    }

    method AddContent(buf: seq<Byte>) returns (ok: bool)
      requires sec.Writing() && |buf| < TWO_32 - MAX_FILE
      modifies sec, sec.disk
      ensures sec.Writing()
      ensures ok <==> |old(sec.disk.bytes)| + 4 + |buf| < MAX_FILE
      ensures ok ==> sec.disk.bytes == old(sec.disk.bytes) + (Le32(|buf|) + buf)
    {
      hide De32, Le32;
      ok := sec.SecWrite(Le32(|buf|));
      if !ok {
        return;
      }
      ok := sec.SecWrite(buf);
      assert ok ==> sec.disk.bytes == old(sec.disk.bytes) + (Le32(|buf|) + buf);
    }

    /** Files of versions 1 to 5 carry the name in wide characters and are not part of this model. */
    method SecOpen(path: Text) returns (ok: bool)
      requires !sec.isOpen && (|sec.disk.bytes| >= 4 ==> De32(sec.disk.bytes, 0) >= 6)
      modifies this, sec, sec.disk
      ensures sec.disk.bytes == old(sec.disk.bytes)
      ensures ok <==> |sec.disk.bytes| <= MAX_FILE && Verifies(sec.hash, sec.key, sec.disk.bytes) && Names(sec.disk.bytes, path)
      ensures ok ==> sec.Reading() && sec.pos == HEAD + 8 + |path|
      ensures ok ==> cfgHeadLen == old(cfgHeadLen) + 8 + |path|
      ensures ok ==> resourceFileSize == De32(sec.disk.bytes, HEAD) && resourceFileName == path
    {
      hide De32, Verifies, Sign;
      ok := sec.SecOpen();
      if !ok {
        return;
      }
      ghost var file := sec.disk.bytes;
      var buf := sec.SecRead(4);
      cfgHeadLen := cfgHeadLen + 4;
      if |buf| != 4 {
        SecClose();
        return false;
      }
      De32Slice(file, HEAD);
      resourceFileSize := De32(buf, 0);
      buf := sec.SecRead(4);
      cfgHeadLen := cfgHeadLen + 4;
      if |buf| != 4 {
        SecClose();
        return false;
      }
      De32Slice(file, HEAD + 4);
      var nameLen := De32(buf, 0);
      if sec.headVersion == 6 {
        return false;
      }
      buf := sec.SecRead(nameLen);
      if |buf| != nameLen {
        SecClose();
        return false;
      }
      resourceFileName := buf;
      if resourceFileName != path {
        SecClose();
        return false;
      }
      cfgHeadLen := cfgHeadLen + nameLen;
    }

    /** The two length asserts of the source are what is required here. */
    method GetContent() returns (content: seq<Byte>)
      requires sec.crash || (sec.Reading() && sec.pos + 4 <= |sec.disk.bytes|
                             && De32(sec.disk.bytes, sec.pos) == sec.count - HEAD - cfgHeadLen - 4)
      modifies sec`pos
      ensures sec.crash ==> content == []
      ensures !sec.crash ==> sec.Reading()
      ensures !sec.crash ==> (var from, n := old(sec.pos) + 4, De32(sec.disk.bytes, old(sec.pos));
                              from + n <= |sec.disk.bytes| ==> content == sec.disk.bytes[from..from + n])
    {
      hide De32, Verifies;
      if sec.crash {
        return [];
      }
      De32Slice(sec.disk.bytes, sec.pos);
      var buf := sec.SecRead(4);
      content := sec.SecRead(De32(buf, 0));
    }
  }

  lemma CfgLayout(file: seq<Byte>, size: Uint32, path: Text, buf: seq<Byte>)
    requires |file| >= HEAD && |buf| < TWO_32
    requires file[HEAD..] == CfgHead(size, path) + (Le32(|buf|) + buf)
    ensures var at := HEAD + 8 + |path|;
            && |file| == at + 4 + |buf|
            && De32(file, HEAD) == size && De32(file, HEAD + 4) == |path| && file[HEAD + 8..at] == path
            && De32(file, at) == |buf| && file[at + 4..] == buf
  {
    var rest := file[HEAD..];
    var at := 8 + |path|;
    assert rest[0..4] == Le32(size) && rest[4..8] == Le32(|path|) && rest[8..at] == path;
    assert rest[at..at + 4] == Le32(|buf|) && rest[at + 4..] == buf;
    assert forall k :: 0 <= k < |rest| ==> rest[k] == file[HEAD + k];
    Read32(rest, 0, size);
    Read32(rest, 4, |path|);
    Read32(rest, at, |buf|);
    assert file[HEAD + 8..HEAD + at] == rest[8..at];
    assert file[HEAD + at + 4..] == rest[at + 4..];
  }

  method Save(hash: seq<Byte> -> Hash, key: seq<Byte>, stamp: Uint64, path: Text, size: Uint32, buf: seq<Byte>)
    returns (disk: DiskFile)
    requires HEAD + 8 + |path| + 4 + |buf| < MAX_FILE
    ensures fresh(disk) && HEAD <= |disk.bytes| < MAX_FILE
    ensures Verifies(hash, key, disk.bytes) && De32(disk.bytes, 0) == VERSION_NOW
    ensures disk.bytes[HEAD..] == CfgHead(size, path) + (Le32(|buf|) + buf)
  {
    hide De32, Le32, Header, Sign, Verifies, CfgHead;
    disk := new DiskFile();
    var file := new SecFile(hash, key, disk);
    var writer := new CfgFile(file);
    var ok := writer.SecCreate(path, size, stamp);
    WriteKeepsHead(disk.bytes, Le32(|buf|) + buf);
    ok := writer.AddContent(buf);
    writer.SecClose();
  }

  /** Create, add, close, open, read: the same size, name and contents, and no length assert in the way. */
  method SaveAndLoad(hash: seq<Byte> -> Hash, key: seq<Byte>, stamp: Uint64, path: Text, size: Uint32, buf: seq<Byte>)
    returns (ok: bool, loadedSize: Uint32, content: seq<Byte>)
    requires HEAD + 8 + |path| + 4 + |buf| < MAX_FILE
    ensures ok && loadedSize == size && content == buf
  {
    hide De32, Le32, Verifies, CfgHead;
    var disk := Save(hash, key, stamp, path, size, buf);
    CfgLayout(disk.bytes, size, path, buf);
    var file := new SecFile(hash, key, disk);
    var reader := new CfgFile(file);
    ok := reader.SecOpen(path);
    loadedSize := reader.resourceFileSize;
    content := reader.GetContent();
  }

  /** Opened under any other name, the file is refused. */
  method SaveAndLoadOther(hash: seq<Byte> -> Hash, key: seq<Byte>, stamp: Uint64, path: Text, size: Uint32, buf: seq<Byte>,
                          other: Text) returns (ok: bool)
    requires HEAD + 8 + |path| + 4 + |buf| < MAX_FILE && other != path
    ensures !ok
  {
    hide De32, Le32, Verifies, CfgHead;
    var disk := Save(hash, key, stamp, path, size, buf);
    CfgLayout(disk.bytes, size, path, buf);
    var file := new SecFile(hash, key, disk);
    var reader := new CfgFile(file);
    ok := reader.SecOpen(other);
  }

  /** The bytes of size and name. */
  lemma CfgHeadBytes()
    ensures CfgHead(258, [65, 66]) == [2, 1, 0, 0, 2, 0, 0, 0, 65, 66]
  {
    assert Le32(258) == [2, 1, 0, 0] && Le32(2) == [2, 0, 0, 0];
  }
}
