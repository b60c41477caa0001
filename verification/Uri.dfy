/** Splitting a URL by the positions of its delimiters, and looking a parameter up in its query. */
module Uris {
  import opened Bytes
  import opened UrlCodec

  const COLON: Byte := 58
  const SLASH: Byte := 47
  const DOT: Byte := 46
  const QUESTION: Byte := 63
  const HASH: Byte := 35
  const AMP: Byte := 38
  const EQ: Byte := 61

  /** "Not found"; adding one to it gives zero, as it does in the source. */
  const NOPOS: int := -1

  // ---------------------------------------------------------------------------------------
  // Searching

  function Find(s: seq<Byte>, c: Byte, from: nat): (r: int)
    ensures r == NOPOS ==> forall k :: from <= k < |s| ==> s[k] != c
    ensures r != NOPOS ==> from <= r < |s| && s[r] == c && forall k :: from <= k < r ==> s[k] != c
    decreases |s| - from
  {
    if from >= |s| then NOPOS else if s[from] == c then from else Find(s, c, from + 1)
  }

  function RFind(s: seq<Byte>, c: Byte, last: int): (r: int)
    requires -1 <= last < |s|
    ensures NOPOS <= r <= last
    ensures r == NOPOS ==> forall k :: 0 <= k <= last ==> s[k] != c
    ensures r != NOPOS ==> s[r] == c && forall k :: r < k <= last ==> s[k] != c
    decreases last + 1
  {
    if last < 0 then NOPOS else if s[last] == c then last else RFind(s, c, last - 1)
  }

  predicate Occurs(s: seq<Byte>, pat: seq<Byte>, i: nat) {
    i + |pat| <= |s| && s[i..i + |pat|] == pat
  }

  function FindStr(s: seq<Byte>, pat: seq<Byte>, from: nat): (r: int)
    ensures r == NOPOS ==> forall k: nat :: from <= k ==> !Occurs(s, pat, k)
    ensures r != NOPOS ==> from <= r && Occurs(s, pat, r) && forall k: nat :: from <= k < r ==> !Occurs(s, pat, k)
    decreases |s| + 1 - from
  {
    if from > |s| then NOPOS else if Occurs(s, pat, from) then from else FindStr(s, pat, from + 1)
  }

  // ---------------------------------------------------------------------------------------
  // One parameter out of a query

  function Param(para: seq<Byte>, key: seq<Byte>): seq<Byte> {
    var start := FindStr(para, [AMP] + key + [EQ], 0);
    if start == NOPOS then [] else ValueAt(para, start)
  }

  /** From behind the next '=' up to the next separator. */
  function ValueAt(para: seq<Byte>, start: nat): seq<Byte> {
    var a := Find(para, EQ, start) + 1;
    var e := Find(para, AMP, a);
    para[a..if e == NOPOS then |para| else e]
  }

  ghost predicate Plain(key: seq<Byte>) {
    forall k :: 0 <= k < |key| ==> IsAlnum(key[k])
  }

  datatype Pair = Pair(key: seq<Byte>, value: seq<Byte>)

  function PairBytes(p: Pair): seq<Byte> {
    [AMP] + p.key + [EQ] + Encode(p.value)
  }

  /** The query with a separator in front of every pair. */
  function Query(pairs: seq<Pair>): seq<Byte> {
    if pairs == [] then [] else PairBytes(pairs[0]) + Query(pairs[1..])
  }

  lemma PairChars(p: Pair, k: nat)
    requires Plain(p.key) && k < |PairBytes(p)|
    ensures PairBytes(p)[k] == AMP <==> k == 0
    ensures k <= |p.key| ==> PairBytes(p)[k] != EQ
    ensures k == |p.key| + 1 ==> PairBytes(p)[k] == EQ
    ensures PairBytes(p)[k] != HASH
  {
    Alphabet(p.value);
  }


  /** The pair looked for stands in front: its value is what is returned. */
  lemma Hit(p: Pair, rest: seq<Byte>)
    requires Plain(p.key) && (rest == [] || rest[0] == AMP)
    ensures Param(PairBytes(p) + rest, p.key) == Encode(p.value)
  {
    hide Encode;
    var b := PairBytes(p);
    var para, pat := b + rest, [AMP] + p.key + [EQ];
    assert para[0..|pat|] == pat;
    assert Occurs(para, pat, 0) && FindStr(para, pat, 0) == 0;
    forall k | 0 <= k < |b|
      ensures para[k] == b[k] && (b[k] == AMP <==> k == 0) && (k <= |p.key| ==> b[k] != EQ)
    {
      PairChars(p, k);
    }
    var a := |p.key| + 2;
    assert para[a - 1] == EQ;
    assert Find(para, EQ, 0) == a - 1;
    var e := Find(para, AMP, a);
    assert rest != [] ==> para[|b|] == AMP;
    assert e == if rest == [] then NOPOS else |b|;
    assert para[a..|b|] == Encode(p.value);
  }

  lemma ValueShift(b: seq<Byte>, rest: seq<Byte>, s: nat)
    requires s < |rest| && Find(rest, EQ, s) != NOPOS
    ensures ValueAt(b + rest, |b| + s) == ValueAt(rest, s)
  {
    hide Find;
    FindShift(b, rest, EQ, s);
    var a := Find(rest, EQ, s) + 1;
    FindShift(b, rest, AMP, a);
    var e := Find(rest, AMP, a);
    var end := if e == NOPOS then |rest| else e;
    assert (b + rest)[|b| + a..|b| + end] == rest[a..end];
  }

  /** Another pair stands in front: it is passed over. */
  lemma Miss(p: Pair, rest: seq<Byte>, key: seq<Byte>)
    requires Plain(p.key) && Plain(key) && p.key != key
    ensures Param(PairBytes(p) + rest, key) == Param(rest, key)
  {
    hide PairBytes, FindStr, Occurs, Plain, ValueAt;
    var b, pat := PairBytes(p), [AMP] + key + [EQ];
    forall k: nat | k < |b|
      ensures !Occurs(b + rest, pat, k)
    {
      NotInside(p, rest, key, k);
    }
    FindStrSkips(b + rest, pat, 0, |b|);
    FindStrShift(b, rest, pat, 0);
    var s := FindStr(rest, pat, 0);
    if s != NOPOS {
      EqFollows(rest, key, s);
      ValueShift(b, rest, s);
    }
  }

  lemma {:induction false} FindStrSkips(s: seq<Byte>, pat: seq<Byte>, from: nat, next: nat)
    requires from <= next <= |s| && forall k: nat :: from <= k < next ==> !Occurs(s, pat, k)
    ensures FindStr(s, pat, from) == FindStr(s, pat, next)
    decreases next - from
  {
    if from < next {
      FindStrSkips(s, pat, from + 1, next);
    }
  }

  lemma {:induction false} FindStrShift(a: seq<Byte>, b: seq<Byte>, pat: seq<Byte>, from: nat)
    requires from <= |b|
    ensures FindStr(a + b, pat, |a| + from) == if FindStr(b, pat, from) == NOPOS then NOPOS else |a| + FindStr(b, pat, from)
    decreases |b| - from
  {
    hide Occurs;
    OccursShift(a, b, pat, from);
    if from < |b| {
      FindStrShift(a, b, pat, from + 1);
    }
  }

  lemma EqFollows(s: seq<Byte>, key: seq<Byte>, i: nat)
    requires Occurs(s, [AMP] + key + [EQ], i)
    ensures i < |s| && Find(s, EQ, i) != NOPOS
  {
    var pat := [AMP] + key + [EQ];
    assert s[i..i + |pat|][|pat| - 1] == s[i + |pat| - 1] == EQ;
  }

  lemma {:induction false} FindShift(a: seq<Byte>, b: seq<Byte>, c: Byte, from: nat)
    requires from <= |b|
    ensures Find(a + b, c, |a| + from) == if Find(b, c, from) == NOPOS then NOPOS else |a| + Find(b, c, from)
    decreases |b| - from
  {
    if from < |b| {
      assert (a + b)[|a| + from] == b[from];
      FindShift(a, b, c, from + 1);
    }
  }

  lemma OccursShift(a: seq<Byte>, b: seq<Byte>, pat: seq<Byte>, k: nat)
    ensures Occurs(a + b, pat, |a| + k) <==> Occurs(b, pat, k)
  {
    if k + |pat| <= |b| {
      assert (a + b)[|a| + k..|a| + k + |pat|] == b[k..k + |pat|];
    }
  }

  /** A separator only opens a pair. */
  lemma OnlyAtStart(p: Pair, rest: seq<Byte>, key: seq<Byte>, k: nat)
    requires Plain(p.key) && k < |PairBytes(p)|
    ensures Occurs(PairBytes(p) + rest, [AMP] + key + [EQ], k) ==> k == 0
  {
    hide Encode;
    var b := PairBytes(p);
    var para, pat := b + rest, [AMP] + key + [EQ];
    PairChars(p, k);
    if Occurs(para, pat, k) {
      assert para[k..k + |pat|][0] == para[k] == b[k];
    }
  }

  /** '=' only ends a key, so a key is read off unambiguously. */
  lemma {:induction false} KeyIsRead(a: seq<Byte>, x: seq<Byte>, b: seq<Byte>, y: seq<Byte>)
    requires Plain(a) && Plain(b) && a + [EQ] + x == b + [EQ] + y
    ensures a == b
    decreases |a|
  {
    var s, t := a + [EQ] + x, b + [EQ] + y;
    assert s[0] == (if a == [] then EQ else a[0]) && t[0] == if b == [] then EQ else b[0];
    if a != [] && b != [] {
      assert s[1..] == a[1..] + [EQ] + x && t[1..] == b[1..] + [EQ] + y;
      KeyIsRead(a[1..], x, b[1..], y);
      assert a == [a[0]] + a[1..] && b == [b[0]] + b[1..];
    }
  }

  lemma OnlyForSameKey(p: Pair, rest: seq<Byte>, key: seq<Byte>)
    requires Plain(p.key) && Plain(key)
    ensures Occurs(PairBytes(p) + rest, [AMP] + key + [EQ], 0) ==> key == p.key
  {
    hide Encode, Plain;
    var para, pat := PairBytes(p) + rest, [AMP] + key + [EQ];
    if Occurs(para, pat, 0) {
      var y := para[|pat|..];
      assert para == pat + y;
      assert para[1..] == key + [EQ] + y;
      assert para[1..] == p.key + [EQ] + (Encode(p.value) + rest);
      KeyIsRead(key, y, p.key, Encode(p.value) + rest);
    }
  }

  lemma NotInside(p: Pair, rest: seq<Byte>, key: seq<Byte>, k: nat)
    requires Plain(p.key) && Plain(key) && p.key != key && k < |PairBytes(p)|
    ensures !Occurs(PairBytes(p) + rest, [AMP] + key + [EQ], k)
  {
    hide PairBytes, Occurs;
    OnlyAtStart(p, rest, key, k);
    OnlyForSameKey(p, rest, key);
  }

  /** Looking a key up gives back the encoded value of its pair, or nothing when there is none. */
  lemma {:induction false} LooksUp(pairs: seq<Pair>, key: seq<Byte>, i: nat)
    requires Plain(key) && forall p :: p in pairs ==> Plain(p.key)
    requires i <= |pairs| && (i < |pairs| ==> pairs[i].key == key)
    requires forall j :: 0 <= j < i ==> pairs[j].key != key
    ensures Param(Query(pairs), key) == if i < |pairs| then Encode(pairs[i].value) else []
    decreases |pairs|
  {
    hide Param, PairBytes, Encode;
    if pairs == [] {
      NothingThere(key);
    } else if i == 0 {
      StartsWithAmp(pairs[1..]);
      Hit(pairs[0], Query(pairs[1..]));
    } else {
      Miss(pairs[0], Query(pairs[1..]), key);
      LooksUp(pairs[1..], key, i - 1);
    }
  }

  lemma StartsWithAmp(pairs: seq<Pair>)
    ensures Query(pairs) == [] <==> pairs == []
    ensures pairs != [] ==> Query(pairs)[0] == AMP
  {
    if pairs != [] {
      assert PairBytes(pairs[0])[0] == AMP;
    }
  }

  lemma NothingThere(key: seq<Byte>)
    ensures Param([], key) == []
  {
  }

  // ---------------------------------------------------------------------------------------
  // Splitting a URL

  /** The positions that matter for the path and the query; the others follow the same pattern. */
  datatype Parts = Parts(url: seq<Byte>, protocolEnd: int, hostStart: int, domainEnd: int, portStart: int, hostEnd: int,
                         pathStart: int, pathEnd: int, fileStart: int, paramStart: int, paramEnd: int)

  /** A missing delimiter counts as lying behind everything. */
  predicate Before(a: int, b: int) {
    a != NOPOS && (b == NOPOS || a < b)
  }

  function HostStart(url: seq<Byte>): (b: nat)
    ensures b <= |url|
  {
    var colon, slash := Find(url, COLON, 0), Find(url, SLASH, 0);
    if Before(colon, slash) && Before(colon, Find(url, DOT, 0)) then Find(url, SLASH, slash + 1) + 1 else 0
  }

  /** Where the search for the end of the host goes on: at the port, if there is one. */
  function PortColon(url: seq<Byte>, host: nat): (e: int)
    ensures e == NOPOS || host <= e < |url|
  {
    var slash := Find(url, SLASH, host);
    Find(if slash == NOPOS then url else url[..slash], COLON, host)
  }

  /** A URL without a path gets one. */
  function WithPath(url: seq<Byte>, from: nat): (full: seq<Byte>)
    requires from <= |url|
    ensures Find(full, SLASH, from) != NOPOS
  {
    if Find(url, SLASH, from) == NOPOS then AppendedSlash(url, from); url + [SLASH] else url
  }

  function Parse(url: seq<Byte>): Parts {
    var colon := Find(url, COLON, 0);
    var protocolEnd := if Before(colon, Find(url, SLASH, 0)) && Before(colon, Find(url, DOT, 0)) then colon else NOPOS;
    var host := HostStart(url);
    var port := PortColon(url, host);
    var from := if port == NOPOS then host else port;
    var full := WithPath(url, from);
    var path := Find(full, SLASH, from);
    var question := Find(full, QUESTION, path);
    var hash := RFind(full, HASH, |full| - 1);
    Parts(full, protocolEnd, host, if port == NOPOS then path else port, if port == NOPOS then NOPOS else port + 1, path,
          path, if question == NOPOS then |full| else question,
          RFind(full, SLASH, if question == NOPOS then |full| - 1 else question) + 1,
          if question == NOPOS then NOPOS else question + 1, if hash == NOPOS then |full| else hash)
  }

  /** The query as a string; a '#' in front of it makes the length wrap, and everything up to the end is taken. */
  function Parameters(p: Parts): seq<Byte> {
    if p.paramStart < 0 || p.paramStart > |p.url| then []
    else p.url[p.paramStart..if p.paramStart <= p.paramEnd <= |p.url| then p.paramEnd else |p.url|]
  }

  function GetParameter(url: seq<Byte>, key: seq<Byte>): seq<Byte> {
    Param([AMP] + Parameters(Parse(url)), key)
  }

  ghost predicate Without(s: seq<Byte>, cs: set<Byte>) {
    forall k :: 0 <= k < |s| ==> s[k] !in cs
  }

  /** scheme://authority/path */
  function Base(scheme: seq<Byte>, authority: seq<Byte>, path: seq<Byte>): seq<Byte> {
    scheme + [COLON, SLASH, SLASH] + authority + [SLASH] + path
  }

  ghost predicate WellFormed(scheme: seq<Byte>, authority: seq<Byte>, path: seq<Byte>) {
    && Without(scheme, {COLON, SLASH, DOT, QUESTION, HASH})
    && Without(authority, {SLASH, QUESTION, HASH})
    && Without(path, {QUESTION, HASH})
  }

  lemma FindIs(s: seq<Byte>, c: Byte, from: nat, at: nat)
    requires from <= at < |s| && s[at] == c && forall k :: from <= k < at ==> s[k] != c
    ensures Find(s, c, from) == at
  {
  }

  lemma FindIsAfter(s: seq<Byte>, c: Byte, from: nat, at: nat)
    requires from <= at <= |s| && forall k :: from <= k < at ==> s[k] != c
    ensures Find(s, c, from) == NOPOS || Find(s, c, from) >= at
  {
  }

  /** What stands where in scheme://authority/path?query. */
  lemma Layout(scheme: seq<Byte>, authority: seq<Byte>, path: seq<Byte>, query: seq<Byte>, url: seq<Byte>)
    requires url == Base(scheme, authority, path) + [QUESTION] + query
    ensures var n, h := |scheme|, |scheme| + 3; var p := h + |authority|; var q := p + 1 + |path|;
            && |url| == q + 1 + |query|
            && url[n] == COLON && url[n + 1] == SLASH && url[n + 2] == SLASH && url[p] == SLASH && url[q] == QUESTION
            && (forall k :: 0 <= k < n ==> url[k] == scheme[k])
            && (forall k :: h <= k < p ==> url[k] == authority[k - h])
            && (forall k :: p < k < q ==> url[k] == path[k - p - 1])
            && (forall k :: q < k < |url| ==> url[k] == query[k - q - 1])
            && url[q + 1..] == query
  {
  }

  lemma FindsHost(scheme: seq<Byte>, authority: seq<Byte>, path: seq<Byte>, query: seq<Byte>, url: seq<Byte>)
    requires WellFormed(scheme, authority, path) && url == Base(scheme, authority, path) + [QUESTION] + query
    ensures HostStart(url) == |scheme| + 3
  {
    hide Find, Base;
    var n := |scheme|;
    Layout(scheme, authority, path, query, url);
    FindIs(url, COLON, 0, n);
    FindIs(url, SLASH, 0, n + 1);
    FindIsAfter(url, DOT, 0, n + 1);
    FindIs(url, SLASH, n + 2, n + 2);
  }

  lemma FindsPath(scheme: seq<Byte>, authority: seq<Byte>, path: seq<Byte>, query: seq<Byte>, url: seq<Byte>)
    requires WellFormed(scheme, authority, path) && url == Base(scheme, authority, path) + [QUESTION] + query
    ensures var h := |scheme| + 3; var port := PortColon(url, h);
            && port < h + |authority|
            && Find(url, SLASH, if port == NOPOS then h else port) == h + |authority|
  {
    hide Find, Base;
    var h := |scheme| + 3;
    var p := h + |authority|;
    Layout(scheme, authority, path, query, url);
    FindIs(url, SLASH, h, p);
    var port := PortColon(url, h);
    FindIs(url, SLASH, if port == NOPOS then h else port, p);
  }

  lemma ParsesTo(url: seq<Byte>, from: nat, path: nat, q: nat)
    requires var port := PortColon(url, HostStart(url)); from == if port == NOPOS then HostStart(url) else port
    requires Find(url, SLASH, from) == path && Find(url, QUESTION, path) == q
    requires RFind(url, HASH, |url| - 1) == NOPOS
    ensures Parameters(Parse(url)) == url[q + 1..]
  {
    hide Find, RFind, HostStart, PortColon, Before;
    assert WithPath(url, from) == url;
    var p := Parse(url);
    assert p.url == url && p.paramStart == q + 1 && p.paramEnd == |url|;
  }

  lemma NotFound(url: seq<Byte>, c: Byte)
    requires forall k :: 0 <= k < |url| ==> url[k] != c
    ensures RFind(url, c, |url| - 1) == NOPOS
  {
  }

  /** The query of a well-formed URL is everything behind the question mark. */
  lemma FindsQuery(scheme: seq<Byte>, authority: seq<Byte>, path: seq<Byte>, query: seq<Byte>, url: seq<Byte>)
    requires WellFormed(scheme, authority, path) && Without(query, {HASH})
    requires url == Base(scheme, authority, path) + [QUESTION] + query
    ensures Parameters(Parse(url)) == query
  {
    hide Find, Base, HostStart, PortColon, Parse, Parameters;
    var h := |scheme| + 3;
    var p := h + |authority|;
    var q := p + 1 + |path|;
    Layout(scheme, authority, path, query, url);
    FindsHost(scheme, authority, path, query, url);
    FindsPath(scheme, authority, path, query, url);
    FindIs(url, QUESTION, p, q);
    NoHash(scheme, authority, path, query, url);
    NotFound(url, HASH);
    var port := PortColon(url, h);
    ParsesTo(url, if port == NOPOS then h else port, p, q);
  }

  lemma NoHash(scheme: seq<Byte>, authority: seq<Byte>, path: seq<Byte>, query: seq<Byte>, url: seq<Byte>)
    requires WellFormed(scheme, authority, path) && Without(query, {HASH})
    requires url == Base(scheme, authority, path) + [QUESTION] + query
    ensures forall k :: 0 <= k < |url| ==> url[k] != HASH
  {
    hide Base;
    Layout(scheme, authority, path, query, url);
    var n, h := |scheme|, |scheme| + 3;
    var p := h + |authority|;
    var q := p + 1 + |path|;
    forall k | 0 <= k < |url|
      ensures url[k] != HASH
    {
      if k < n {
        assert url[k] == scheme[k];
      } else if h <= k < p {
        assert url[k] == authority[k - h];
      } else if p < k < q {
        assert url[k] == path[k - p - 1];
      } else if q < k {
        assert url[k] == query[k - q - 1];
      }
    }
  }

  // ---------------------------------------------------------------------------------------
  // Every part of a URL

  /** An optional part behind a delimiter. */
  function Behind(c: Byte, part: seq<seq<Byte>>): seq<Byte> {
    if part == [] then [] else [c] + part[0]
  }

  /** scheme://host:port/directory/file?query#fragment, port and fragment optional. */
  datatype Address = Address(scheme: seq<Byte>, host: seq<Byte>, port: seq<seq<Byte>>, dir: seq<Byte>, file: seq<Byte>,
                             query: seq<Byte>, fragment: seq<seq<Byte>>)

  function Authority(a: Address): seq<Byte> {
    a.host + Behind(COLON, a.port)
  }

  function Url(a: Address): seq<Byte> {
    Base(a.scheme, Authority(a), a.dir + a.file) + [QUESTION] + (a.query + Behind(HASH, a.fragment))
  }

  ghost predicate WellFormedAddress(a: Address) {
    && |a.port| <= 1 && |a.fragment| <= 1
    && WellFormed(a.scheme, Authority(a), a.dir + a.file)
    && Without(a.host, {COLON}) && Without(a.file, {SLASH}) && Without(a.query, {HASH})
    && (a.dir == [] || a.dir[|a.dir| - 1] == SLASH)
    && (a.fragment != [] ==> Without(a.fragment[0], {HASH}))
  }

  lemma RFindIs(s: seq<Byte>, c: Byte, last: nat, at: nat)
    requires at <= last < |s| && s[at] == c && forall k :: at < k <= last ==> s[k] != c
    ensures RFind(s, c, last) == at
  {
  }

  lemma FindsPort(a: Address, url: seq<Byte>)
    requires WellFormedAddress(a) && url == Url(a)
    ensures PortColon(url, |a.scheme| + 3) == if a.port == [] then NOPOS else |a.scheme| + 3 + |a.host|
  {
    hide Find, Base, Behind, WellFormedAddress;
    var h, authority := |a.scheme| + 3, Authority(a);
    AddressParts(a);
    Layout(a.scheme, authority, a.dir + a.file, a.query + Behind(HASH, a.fragment), url);
    var p := h + |authority|;
    FindIs(url, SLASH, h, p);
    var front := url[..p];
    assert forall k :: h <= k < p ==> front[k] == authority[k - h];
    if a.port == [] {
      FindIsAfter(front, COLON, h, p);
    } else {
      FindIs(front, COLON, h, h + |a.host|);
    }
  }

  lemma AddressParts(a: Address)
    requires WellFormedAddress(a)
    ensures WellFormed(a.scheme, Authority(a), a.dir + a.file)
    ensures |Authority(a)| >= |a.host| && (forall k :: 0 <= k < |a.host| ==> Authority(a)[k] == a.host[k] && a.host[k] != COLON)
    ensures a.port == [] ==> |Authority(a)| == |a.host|
    ensures a.port != [] ==> |Authority(a)| > |a.host| && Authority(a)[|a.host|] == COLON
  {
  }

  lemma FindsFile(a: Address, url: seq<Byte>)
    requires WellFormedAddress(a) && url == Url(a)
    ensures var p := |a.scheme| + 3 + |Authority(a)|; var q := p + 1 + |a.dir| + |a.file|;
            q < |url| && RFind(url, SLASH, q) == p + |a.dir|
  {
    hide RFind, Base, Behind, Authority, WellFormed;
    var path := a.dir + a.file;
    var p := |a.scheme| + 3 + |Authority(a)|;
    var q := p + 1 + |path|;
    Layout(a.scheme, Authority(a), path, a.query + Behind(HASH, a.fragment), url);
    assert forall k :: p < k < q ==> url[k] == path[k - p - 1];
    assert a.dir != [] ==> url[p + |a.dir|] == a.dir[|a.dir| - 1];
    RFindIs(url, SLASH, q, p + |a.dir|);
  }

  lemma FindsFragment(a: Address, url: seq<Byte>)
    requires WellFormedAddress(a) && url == Url(a)
    ensures RFind(url, HASH, |url| - 1) == if a.fragment == [] then NOPOS else |url| - |Behind(HASH, a.fragment)|
    ensures |Behind(HASH, a.fragment)| <= |url|
  {
    hide RFind, Base, Authority;
    var tail := Behind(HASH, a.fragment);
    if a.fragment == [] {
      assert a.query + tail == a.query;
      NoHash(a.scheme, Authority(a), a.dir + a.file, a.query, url);
      NotFound(url, HASH);
    } else {
      var front := Base(a.scheme, Authority(a), a.dir + a.file) + [QUESTION] + a.query;
      assert url == front + tail;
      assert forall k :: 0 <= k < |tail| ==> url[|front| + k] == tail[k];
      RFindIs(url, HASH, |url| - 1, |front|);
    }
  }

  lemma ParsesAll(url: seq<Byte>, scheme: nat, port: int, path: nat, question: nat, slash: int, hash: int)
    requires Find(url, COLON, 0) == scheme && Before(scheme, Find(url, SLASH, 0)) && Before(scheme, Find(url, DOT, 0))
    requires HostStart(url) == scheme + 3 && PortColon(url, scheme + 3) == port
    requires Find(url, SLASH, if port == NOPOS then scheme + 3 else port) == path && Find(url, QUESTION, path) == question
    requires RFind(url, SLASH, question) == slash && RFind(url, HASH, |url| - 1) == hash
    ensures Parse(url) == Parts(url, scheme, scheme + 3, if port == NOPOS then path else port,
                                if port == NOPOS then NOPOS else port + 1, path, path, question, slash + 1, question + 1,
                                if hash == NOPOS then |url| else hash)
  {
    hide Find, RFind, HostStart, PortColon, Before;
    assert WithPath(url, if port == NOPOS then scheme + 3 else port) == url;
  }

  lemma FindsDelimiters(a: Address, url: seq<Byte>)
    requires WellFormedAddress(a) && url == Url(a)
    ensures var n, path := |a.scheme|, |a.scheme| + 3 + |Authority(a)|;
            && Find(url, COLON, 0) == n && Before(n, Find(url, SLASH, 0)) && Before(n, Find(url, DOT, 0))
            && HostStart(url) == n + 3
            && Find(url, SLASH, if PortColon(url, n + 3) == NOPOS then n + 3 else PortColon(url, n + 3)) == path
            && Find(url, QUESTION, path) == path + 1 + |a.dir| + |a.file|
  {
    hide Find, Base, Behind, HostStart, PortColon, WellFormedAddress, Authority;
    var query, path, n := a.query + Behind(HASH, a.fragment), a.dir + a.file, |a.scheme|;
    AddressParts(a);
    Layout(a.scheme, Authority(a), path, query, url);
    FindsHost(a.scheme, Authority(a), path, query, url);
    FindsPath(a.scheme, Authority(a), path, query, url);
    FindIs(url, COLON, 0, n);
    FindIs(url, SLASH, 0, n + 1);
    FindIsAfter(url, DOT, 0, n + 1);
    FindIs(url, QUESTION, n + 3 + |Authority(a)|, n + 3 + |Authority(a)| + 1 + |path|);
  }

  /** Each part of a well-formed URL is found where it stands. */
  lemma FindsEveryPart(a: Address)
    requires WellFormedAddress(a)
    ensures var h := |a.scheme| + 3; var domain := h + |a.host|; var path := h + |Authority(a)|;
            var question := path + 1 + |a.dir| + |a.file|;
            Parse(Url(a)) == Parts(Url(a), |a.scheme|, h, domain, if a.port == [] then NOPOS else domain + 1, path, path,
                                   question, path + 1 + |a.dir|, question + 1, |Url(a)| - |Behind(HASH, a.fragment)|)
  {
    hide Find, RFind, HostStart, PortColon, Parse, WellFormedAddress, Url, Authority, Before;
    var url, n, path := Url(a), |a.scheme|, |a.scheme| + 3 + |Authority(a)|;
    AddressParts(a);
    FindsDelimiters(a, url);
    FindsPort(a, url);
    FindsFile(a, url);
    FindsFragment(a, url);
    assert a.fragment == [] ==> Behind(HASH, a.fragment) == [];
    ParsesAll(url, n, PortColon(url, n + 3), path, path + 1 + |a.dir| + |a.file|, path + |a.dir|, RFind(url, HASH, |url| - 1));
  }

  /** So the query is what stands between question mark and fragment. */
  lemma QueryEndsAtFragment(a: Address)
    requires WellFormedAddress(a)
    ensures Parameters(Parse(Url(a))) == a.query
  {
    hide Parse, WellFormedAddress, Base, Behind, Authority;
    FindsEveryPart(a);
    var url, tail := Url(a), Behind(HASH, a.fragment);
    var query := a.query + tail;
    Layout(a.scheme, Authority(a), a.dir + a.file, query, url);
    var start := |url| - |query|;
    assert Parse(url).paramStart == start && Parse(url).paramEnd == start + |a.query|;
    assert url[start..] == query;
    assert url[start..start + |a.query|] == query[..|a.query|] == a.query;
  }

  /** A URL without a path gets one, and has no query. */
  lemma PathIsAppended(scheme: seq<Byte>, host: seq<Byte>)
    requires Without(scheme, {COLON, SLASH, DOT, QUESTION, HASH}) && Without(host, {COLON, SLASH, QUESTION, HASH})
    ensures var url := scheme + [COLON, SLASH, SLASH] + host; var p := Parse(url);
            && p.url == url + [SLASH] && p.protocolEnd == |scheme| && p.hostStart == |scheme| + 3
            && p.domainEnd == p.pathStart == |url| && p.portStart == NOPOS && Parameters(p) == []
  {
    hide Find, RFind;
    var url, n := scheme + [COLON, SLASH, SLASH] + host, |scheme|;
    assert forall k :: 0 <= k < n ==> url[k] == scheme[k];
    assert forall k :: n + 3 <= k < |url| ==> url[k] == host[k - n - 3];
    FindIs(url, COLON, 0, n);
    FindIs(url, SLASH, 0, n + 1);
    FindIsAfter(url, DOT, 0, n + 1);
    FindIs(url, SLASH, n + 2, n + 2);
    FindIsAfter(url, SLASH, n + 3, |url|);
    FindIsAfter(url, COLON, n + 3, |url|);
    AppendedSlash(url, n + 3);
    FindIsAfter(url + [SLASH], QUESTION, |url|, |url| + 1);
  }

  /** Without a colon there is no protocol, and the host is in front. */
  lemma NoProtocol(url: seq<Byte>)
    requires Without(url, {COLON})
    ensures Parse(url).protocolEnd == NOPOS && Parse(url).hostStart == 0 && Parse(url).portStart == NOPOS
  {
    hide RFind;
    FindIsAfter(url, COLON, 0, |url|);
  }

  lemma {:induction false} QueryHasNoHash(pairs: seq<Pair>)
    requires forall p :: p in pairs ==> Plain(p.key)
    ensures Without(Query(pairs), {HASH})
    decreases |pairs|
  {
    hide PairBytes;
    if pairs != [] {
      QueryHasNoHash(pairs[1..]);
      forall k: nat | k < |PairBytes(pairs[0])|
        ensures PairBytes(pairs[0])[k] != HASH
      {
        PairChars(pairs[0], k);
      }
    }
  }

  lemma TailWithout(s: seq<Byte>, cs: set<Byte>)
    requires s != [] && Without(s, cs)
    ensures Without(s[1..], cs)
  {
  }

  /**
   Percent-encode the values, join the pairs behind a well-formed URL, and take the result apart
   again: each key gives back the value it was first given.
   */
  lemma ParameterRoundTrip(scheme: seq<Byte>, authority: seq<Byte>, path: seq<Byte>, pairs: seq<Pair>, i: nat)
    requires WellFormed(scheme, authority, path) && forall p :: p in pairs ==> Plain(p.key)
    requires i < |pairs| && forall j :: 0 <= j < i ==> pairs[j].key != pairs[i].key
    ensures var url := Base(scheme, authority, path) + [QUESTION] + Query(pairs)[1..];
            Decode(GetParameter(url, pairs[i].key)) == pairs[i].value
  {
    hide Base, WellFormed, Without, Parse, Parameters, Param, Decode, Encode, Query, Plain;
    StartsWithAmp(pairs);
    var query := Query(pairs)[1..];
    var url := Base(scheme, authority, path) + [QUESTION] + query;
    assert Query(pairs) == [AMP] + query;
    QueryHasNoHash(pairs);
    TailWithout(Query(pairs), {HASH});
    FindsQuery(scheme, authority, path, query, url);
    LooksUp(pairs, pairs[i].key, i);
    UrlCodec.RoundTrip(pairs[i].value);
  }

  // ---------------------------------------------------------------------------------------
  // The object

  class Uri {
    var url: seq<Byte>
    var protocolEnd: int
    var hostStart: int
    var domainEnd: int
    var portStart: int
    var hostEnd: int
    var pathStart: int
    var pathEnd: int
    var fileStart: int
    var paramStart: int
    var paramEnd: int

    ghost function Positions(): Parts
      reads this
    {
      Parts(url, protocolEnd, hostStart, domainEnd, portStart, hostEnd, pathStart, pathEnd, fileStart, paramStart, paramEnd)
    }

    constructor (address: seq<Byte>)
      ensures Positions() == Parse(address)
    {
      var p := ParseUrl(address);
      url := p.url;
      protocolEnd, hostStart, domainEnd, portStart, hostEnd := p.protocolEnd, p.hostStart, p.domainEnd, p.portStart, p.hostEnd;
      pathStart, pathEnd, fileStart := p.pathStart, p.pathEnd, p.fileStart;
      paramStart, paramEnd := p.paramStart, p.paramEnd;
    }

    /** The scan from left to right, up to the port. */
    static method ParseHost(url: seq<Byte>) returns (protocolEnd: int, hostStart: nat, port: int)
      ensures protocolEnd == Parse(url).protocolEnd && hostStart == HostStart(url) && port == PortColon(url, hostStart)
    {
      hide Find, RFind;
      protocolEnd := NOPOS;
      var begin := Find(url, COLON, 0);
      var end := Find(url, SLASH, 0);
      if begin != NOPOS && Before(begin, end) && Before(begin, Find(url, DOT, 0)) {
        protocolEnd := begin;
        hostStart := Find(url, SLASH, end + 1) + 1;
      } else {
        hostStart := 0;
      }
      var slash := Find(url, SLASH, hostStart);
      port := Find(if slash == NOPOS then url else url[..slash], COLON, hostStart);
    }

    /** And from there on. */
    static method ParseUrl(address: seq<Byte>) returns (p: Parts)
      ensures p == Parse(address)
    {
      hide Find, RFind, HostStart, PortColon, Before;
      var url := address;
      var protocolEnd, hostStart, port := ParseHost(url);
      var portStart, domainEnd, begin := NOPOS, NOPOS, hostStart;
      if port != NOPOS {
        portStart, begin, domainEnd := port + 1, port, port;
      }
      var end := Find(url, SLASH, begin);
      if end == NOPOS {
        url := url + [SLASH];
        end := Find(url, SLASH, begin);
      }
      assert url == WithPath(address, begin);
      if domainEnd == NOPOS {
        domainEnd := end;
      }
      var question := Find(url, QUESTION, end);
      var paramStart, pathEnd := NOPOS, |url|;
      if question != NOPOS {
        paramStart, pathEnd := question + 1, question;
      }
      var fileStart := RFind(url, SLASH, if question != NOPOS then question else |url| - 1) + 1;
      var hash := RFind(url, HASH, |url| - 1);
      var paramEnd := if hash != NOPOS then hash else |url|;
      p := Parts(url, protocolEnd, hostStart, domainEnd, portStart, end, end, pathEnd, fileStart, paramStart, paramEnd);
    }

    method GetParameterOf(key: seq<Byte>) returns (value: seq<Byte>)
      ensures value == Param([AMP] + Parameters(Positions()), key)
    {
      hide Param;
      var para: seq<Byte> := [];
      if 0 <= paramStart <= |url| {
        para := url[paramStart..if paramStart <= paramEnd <= |url| then paramEnd else |url|];
      }
      value := LookUp([AMP] + para, key);
    }

    static method LookUp(para: seq<Byte>, key: seq<Byte>) returns (value: seq<Byte>)
      ensures value == Param(para, key)
    {
      hide Find, FindStr;
      var start := FindStr(para, [AMP] + key + [EQ], 0);
      if start == NOPOS {
        return [];
      }
      start := Find(para, EQ, start) + 1;
      var end := Find(para, AMP, start);
      if end == NOPOS {
        end := |para|;
      }
      value := para[start..end];
    }
  }

  lemma AppendedSlash(url: seq<Byte>, from: nat)
    requires from <= |url| && Find(url, SLASH, from) == NOPOS
    ensures Find(url + [SLASH], SLASH, from) == |url|
  {
    var longer := url + [SLASH];
    assert forall k :: from <= k < |url| ==> longer[k] == url[k];
    FindIs(longer, SLASH, from, |url|);
  }
}
