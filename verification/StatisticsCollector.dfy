/**
 Snapshots are kept per resource as long as one of the active collection specs can still ask for
 them. Proved against a collector that never throws a snapshot away.
 */
module StatisticsCollectors {

  type Rid = nat

  datatype Spec = Spec(rid: Rid, length: nat, downloaders: bool, drivers: bool)

  datatype Content = Content(info: int, drivers: seq<int>, downloaders: seq<int>)

  datatype Snapshot = Snapshot(at: nat, content: Content)

  // ---------------------------------------------------------------------------------------
  // Specs

  function Union(a: Spec, b: Spec): Spec {
    if a.rid != b.rid then a
    else Spec(a.rid, if b.length > a.length then b.length else a.length,
              a.downloaders || b.downloaders, a.drivers || b.drivers)
  }

  /** The loop over the specs, last one last. */
  function Active(specs: seq<Spec>): map<Rid, Spec> {
    if specs == [] then map[]
    else
      var before, spec := Active(specs[..|specs| - 1]), specs[|specs| - 1];
      before[spec.rid := if spec.rid in before then Union(before[spec.rid], spec) else spec]
  }

  /** `s` is the least spec for `rid` that covers every spec of the list for it. */
  ghost predicate IsJoin(specs: seq<Spec>, rid: Rid, s: Spec) {
    && s.rid == rid
    && (forall x :: x in specs && x.rid == rid ==> x.length <= s.length)
    && (exists x :: x in specs && x.rid == rid && x.length == s.length)
    && (s.downloaders <==> exists x :: x in specs && x.rid == rid && x.downloaders)
    && (s.drivers <==> exists x :: x in specs && x.rid == rid && x.drivers)
  }

  lemma {:induction false} ActiveIsJoin(specs: seq<Spec>, rid: Rid)
    ensures rid in Active(specs) <==> exists x :: x in specs && x.rid == rid
    ensures rid in Active(specs) ==> IsJoin(specs, rid, Active(specs)[rid])
    decreases |specs|
  {
    if specs != [] {
      var rest, spec := specs[..|specs| - 1], specs[|specs| - 1];
      ActiveIsJoin(rest, rid);
      assert specs == rest + [spec];
      assert spec in specs && forall x :: x in rest ==> x in specs;
      if rid == spec.rid {
        var s := Active(specs)[rid];
        if rid in Active(rest) {
          var x :| x in rest && x.rid == rid && x.length == Active(rest)[rid].length;
          assert x in specs;
        }
      }
    }
  }

  lemma JoinIsUnique(a: seq<Spec>, b: seq<Spec>, rid: Rid, s: Spec, t: Spec)
    requires forall x :: x in a <==> x in b
    requires IsJoin(a, rid, s) && IsJoin(b, rid, t)
    ensures s == t
  {
  }

  /** The order of the specs, and repeating one, makes no difference. */
  lemma OrderDoesNotMatter(a: seq<Spec>, b: seq<Spec>)
    requires forall x :: x in a <==> x in b
    ensures Active(a) == Active(b)
  {
    forall rid: Rid
      ensures rid in Active(a) <==> rid in Active(b)
      ensures rid in Active(a) ==> Active(a)[rid] == Active(b)[rid]
    {
      ActiveIsJoin(a, rid);
      ActiveIsJoin(b, rid);
      if rid in Active(a) {
        JoinIsUnique(a, b, rid, Active(a)[rid], Active(b)[rid]);
      }
    }
  }

  // ---------------------------------------------------------------------------------------
  // One resource

  predicate Visible(x: Snapshot, length: nat, now: nat) {
    now - x.at < 1000 * length
  }

  function Convert(x: Snapshot, spec: Spec): Content {
    Content(x.content.info, if spec.drivers then x.content.drivers else [],
            if spec.downloaders then x.content.downloaders else [])
  }

  function Collect(snaps: seq<Snapshot>, spec: Spec, now: nat): seq<Content> {
    if snaps == [] then []
    else
      (if Visible(snaps[0], spec.length, now) then [Convert(snaps[0], spec)] else []) + Collect(snaps[1..], spec, now)
  }

  /** Popping from the front while the front is too old. */
  function Expire(snaps: seq<Snapshot>, length: nat, now: nat): seq<Snapshot> {
    if snaps == [] || Visible(snaps[0], length, now) then snaps else Expire(snaps[1..], length, now)
  }

  ghost predicate InOrder(snaps: seq<Snapshot>, clock: nat) {
    && (forall i, j :: 0 <= i < j < |snaps| ==> snaps[i].at <= snaps[j].at)
    && (forall i :: 0 <= i < |snaps| ==> snaps[i].at <= clock)
  }

  function Fresh(snaps: seq<Snapshot>, length: nat, now: nat): seq<Snapshot> {
    if snaps == [] then []
    else (if Visible(snaps[0], length, now) then [snaps[0]] else []) + Fresh(snaps[1..], length, now)
  }

  lemma {:induction false} AllFresh(snaps: seq<Snapshot>, length: nat, now: nat)
    requires forall i :: 0 <= i < |snaps| ==> Visible(snaps[i], length, now)
    ensures Fresh(snaps, length, now) == snaps
    decreases |snaps|
  {
    if snaps != [] {
      AllFresh(snaps[1..], length, now);
    }
  }

  /** Popping the front is filtering, because snapshots are taken in order. */
  lemma {:induction false} ExpireIsFilter(snaps: seq<Snapshot>, length: nat, now: nat)
    requires InOrder(snaps, now)
    ensures Expire(snaps, length, now) == Fresh(snaps, length, now)
    decreases |snaps|
  {
    if snaps != [] {
      if Visible(snaps[0], length, now) {
        AllFresh(snaps, length, now);
      } else {
        ExpireIsFilter(snaps[1..], length, now);
      }
    }
  }

  lemma {:induction false} CollectSplits(a: seq<Snapshot>, b: seq<Snapshot>, spec: Spec, now: nat)
    ensures Collect(a + b, spec, now) == Collect(a, spec, now) + Collect(b, spec, now)
    decreases |a|
  {
    if a == [] {
      assert a + b == b;
    } else {
      CollectSplits(a[1..], b, spec, now);
      assert (a + b)[1..] == a[1..] + b;
    }
  }

  lemma {:induction false} CollectNone(snaps: seq<Snapshot>, spec: Spec, now: nat)
    ensures Collect(snaps, spec, now) == [] <==> forall i :: 0 <= i < |snaps| ==> !Visible(snaps[i], spec.length, now)
    decreases |snaps|
  {
    if snaps != [] {
      CollectNone(snaps[1..], spec, now);
      if Collect(snaps, spec, now) == [] {
        forall i | 0 <= i < |snaps|
          ensures !Visible(snaps[i], spec.length, now)
        {
          assert i > 0 ==> snaps[i] == snaps[1..][i - 1];
        }
      } else if !Visible(snaps[0], spec.length, now) {
        var i :| 0 <= i < |snaps| - 1 && Visible(snaps[1..][i], spec.length, now);
        assert snaps[i + 1] == snaps[1..][i];
      }
    }
  }

  /** Popping leaves a suffix, and what it pops is exactly what is too old. */
  lemma {:induction false} ExpirePops(snaps: seq<Snapshot>, length: nat, now: nat)
    requires InOrder(snaps, now)
    ensures var left := Expire(snaps, length, now);
            && |left| <= |snaps| && left == snaps[|snaps| - |left|..]
            && forall i :: 0 <= i < |snaps| ==> (i < |snaps| - |left| <==> !Visible(snaps[i], length, now))
    decreases |snaps|
  {
    if snaps != [] && !Visible(snaps[0], length, now) {
      var rest := snaps[1..];
      ExpirePops(rest, length, now);
      assert forall i :: 0 < i < |snaps| ==> snaps[i] == rest[i - 1];
    }
  }

  /** Throwing a prefix away makes no difference to a spec exactly when it cannot see any of it. */
  lemma SuffixCollectsIff(full: seq<Snapshot>, gone: nat, spec: Spec, now: nat)
    requires gone <= |full|
    ensures Collect(full[gone..], spec, now) == Collect(full, spec, now) <==>
            forall j :: 0 <= j < gone ==> !Visible(full[j], spec.length, now)
  {
    assert full == full[..gone] + full[gone..];
    CollectSplits(full[..gone], full[gone..], spec, now);
    CollectNone(full[..gone], spec, now);
    assert forall j :: 0 <= j < gone ==> full[..gone][j] == full[j];
  }

  /** What is collected: one element for each snapshot that is fresh enough, in order, with the lists the spec asks for. */
  ghost predicate Answers(result: seq<Content>, seen: seq<Snapshot>, spec: Spec) {
    && |result| == |seen|
    && forall i :: 0 <= i < |result| ==>
         && result[i].info == seen[i].content.info
         && result[i].drivers == (if spec.drivers then seen[i].content.drivers else [])
         && result[i].downloaders == (if spec.downloaders then seen[i].content.downloaders else [])
  }

  lemma {:induction false} CollectAnswers(snaps: seq<Snapshot>, spec: Spec, now: nat)
    ensures Answers(Collect(snaps, spec, now), Fresh(snaps, spec.length, now), spec)
    decreases |snaps|
  {
    if snaps != [] {
      CollectAnswers(snaps[1..], spec, now);
    }
  }

  /** Fresh enough: not yet as old as the length, in seconds, of the spec. */
  lemma {:induction false} FreshNext(snaps: seq<Snapshot>, x: Snapshot, length: nat, now: nat)
    ensures Fresh([], length, now) == []
    ensures Fresh(snaps + [x], length, now) == Fresh(snaps, length, now) + if now - x.at < 1000 * length then [x] else []
    decreases |snaps|
  {
    if snaps == [] {
      assert [] + [x] == [x] && [x][1..] == [];
    } else {
      hide Visible;
      FreshNext(snaps[1..], x, length, now);
      assert (snaps + [x])[1..] == snaps[1..] + [x];
      var first := if Visible(snaps[0], length, now) then [snaps[0]] else [];
      var last := if now - x.at < 1000 * length then [x] else [];
      assert first + (Fresh(snaps[1..], length, now) + last) == first + Fresh(snaps[1..], length, now) + last;
    }
  }

  lemma FreshIsSuffix(snaps: seq<Snapshot>, length: nat, now: nat)
    requires InOrder(snaps, now)
    ensures var seen := Fresh(snaps, length, now);
            && |seen| <= |snaps| && seen == snaps[|snaps| - |seen|..]
            && forall i :: 0 <= i < |snaps| ==> (i < |snaps| - |seen| <==> now - snaps[i].at >= 1000 * length)
  {
    ExpireIsFilter(snaps, length, now);
    ExpirePops(snaps, length, now);
  }

  /** `part` is contained in the end of `whole`, in the lists that `spec` asks for. */
  ghost predicate Covers(whole: seq<Content>, part: seq<Content>, spec: Spec) {
    && |part| <= |whole|
    && var o := |whole| - |part|;
    forall i :: 0 <= i < |part| ==>
      && part[i].info == whole[o + i].info
      && (spec.drivers ==> part[i].drivers == whole[o + i].drivers)
      && (spec.downloaders ==> part[i].downloaders == whole[o + i].downloaders)
  }

  /** What the active spec of a resource collects contains what every spec given for it asks for. */
  lemma ActiveCollectsForAll(specs: seq<Spec>, spec: Spec, snaps: seq<Snapshot>, now: nat)
    requires spec in specs && InOrder(snaps, now)
    ensures spec.rid in Active(specs)
    ensures Covers(Collect(snaps, Active(specs)[spec.rid], now), Collect(snaps, spec, now), spec)
  {
    hide Active, Collect, Fresh, Answers, Covers;
    ActiveIsJoin(specs, spec.rid);
    var all := Active(specs)[spec.rid];
    CollectAnswers(snaps, spec, now);
    CollectAnswers(snaps, all, now);
    FreshIsSuffix(snaps, spec.length, now);
    FreshIsSuffix(snaps, all.length, now);
    var less, more := Fresh(snaps, spec.length, now), Fresh(snaps, all.length, now);
    ShorterIsFewer(snaps, spec.length, all.length, now);
    assert less == more[|more| - |less|..];
    SuffixCovers(Collect(snaps, all, now), more, all, Collect(snaps, spec, now), less, spec);
  }

  lemma SuffixCovers(whole: seq<Content>, more: seq<Snapshot>, all: Spec, part: seq<Content>, less: seq<Snapshot>, spec: Spec)
    requires Answers(whole, more, all) && Answers(part, less, spec)
    requires |less| <= |more| && less == more[|more| - |less|..]
    requires (spec.drivers ==> all.drivers) && (spec.downloaders ==> all.downloaders)
    ensures Covers(whole, part, spec)
  {
    var o := |whole| - |part|;
    assert forall i :: 0 <= i < |part| ==> less[i] == more[o + i];
  }

  lemma ShorterIsFewer(snaps: seq<Snapshot>, shorter: nat, longer: nat, now: nat)
    requires InOrder(snaps, now) && shorter <= longer
    ensures |Fresh(snaps, shorter, now)| <= |Fresh(snaps, longer, now)|
  {
    hide Fresh;
    FreshIsSuffix(snaps, shorter, now);
    FreshIsSuffix(snaps, longer, now);
    var n := |snaps| - |Fresh(snaps, longer, now)|;
    if n > 0 {
      assert now - snaps[n - 1].at >= 1000 * longer;
    }
  }

  // ---------------------------------------------------------------------------------------
  // The collector, and one that never expires anything

  datatype Collector = Collector(snaps: map<Rid, seq<Snapshot>>, active: map<Rid, Spec>)

  datatype Op = SetSpecs(specs: seq<Spec>, now: nat) | Timer(now: nat, taken: map<Rid, Content>)

  function Get(snaps: map<Rid, seq<Snapshot>>, rid: Rid): seq<Snapshot> {
    if rid in snaps then snaps[rid] else []
  }

  /** Resources without a spec go, the others lose what is too old for their spec. */
  function RemoveExpired(s: Collector, now: nat): Collector {
    s.(snaps := map rid | rid in s.snaps && rid in s.active :: Expire(s.snaps[rid], s.active[rid].length, now))
  }

  predicate Takes(active: map<Rid, Spec>, taken: map<Rid, Content>) {
    forall rid :: rid in active ==> rid in taken
  }

  function Push(s: Collector, now: nat, taken: map<Rid, Content>): Collector
    requires Takes(s.active, taken)
  {
    s.(snaps := map rid | rid in s.active :: Get(s.snaps, rid) + [Snapshot(now, taken[rid])])
  }

  predicate Possible(s: Collector, op: Op) {
    op.Timer? ==> Takes(s.active, op.taken)
  }

  function Step(s: Collector, op: Op): Collector
    requires Possible(s, op)
  {
    match op
    case SetSpecs(specs, now) => RemoveExpired(s.(active := Active(specs)), now)
    case Timer(now, taken) =>
      var t := RemoveExpired(s, now);
      if |t.active| == 0 then t else Push(t, now, taken)
  }

  /** A collector that never throws anything away, whatever becomes of the specs. */
  function StepKeeping(s: Collector, op: Op): Collector
    requires Possible(s, op)
  {
    match op
    case SetSpecs(specs, now) => s.(active := Active(specs))
    case Timer(now, taken) =>
      s.(snaps := map rid | rid in s.snaps.Keys + s.active.Keys ::
           if rid in s.active then Get(s.snaps, rid) + [Snapshot(now, taken[rid])] else s.snaps[rid])
  }

  // ---------------------------------------------------------------------------------------
  // Whole runs, read off the calls alone

  /** The specs in force after a list of calls. */
  function ActiveAfter(ops: seq<Op>): map<Rid, Spec> {
    if ops == [] then map[]
    else
      match ops[|ops| - 1]
      case SetSpecs(specs, _) => Active(specs)
      case Timer(_, _) => ActiveAfter(ops[..|ops| - 1])
  }

  /** The clock does not go back, and a timer call finds a snapshot for every active resource. */
  ghost predicate Timed(ops: seq<Op>) {
    && (forall j, k :: 0 <= j < k < |ops| ==> ops[j].now <= ops[k].now)
    && (forall k :: 0 <= k < |ops| && ops[k].Timer? ==> Takes(ActiveAfter(ops[..k]), ops[k].taken))
  }

  lemma TimedBefore(ops: seq<Op>)
    requires Timed(ops) && ops != []
    ensures Timed(ops[..|ops| - 1])
    ensures ops[|ops| - 1].Timer? ==> Takes(ActiveAfter(ops[..|ops| - 1]), ops[|ops| - 1].taken)
  {
    var before := ops[..|ops| - 1];
    assert forall k :: 0 <= k < |before| ==> before[..k] == ops[..k];
  }

  const NONE := Collector(map[], map[])

  ghost function Run(ops: seq<Op>): (s: Collector)
    requires Timed(ops)
    ensures s.active == ActiveAfter(ops)
  {
    if ops == [] then NONE
    else
      TimedBefore(ops);
      Step(Run(ops[..|ops| - 1]), ops[|ops| - 1])
  }

  ghost function RunKeeping(ops: seq<Op>): (s: Collector)
    requires Timed(ops)
    ensures s.active == ActiveAfter(ops)
  {
    if ops == [] then NONE
    else
      TimedBefore(ops);
      StepKeeping(RunKeeping(ops[..|ops| - 1]), ops[|ops| - 1])
  }

  /** The timer calls at which `rid` was active. */
  ghost function Calls(ops: seq<Op>, rid: Rid): (ks: seq<nat>)
    ensures forall i :: 0 <= i < |ks| ==> ks[i] < |ops|
  {
    if ops == [] then []
    else
      var n := |ops| - 1;
      Calls(ops[..n], rid) + if ops[n].Timer? && rid in ActiveAfter(ops) then [n] else []
  }

  /** How far back call `m` lets the resource be asked for; not at all when no spec names it. */
  function LengthAt(ops: seq<Op>, rid: Rid, m: nat): nat
    requires m < |ops|
  {
    var active := ActiveAfter(ops[..m + 1]);
    if rid in active then active[rid].length else 0
  }

  /** Call `m` finds the snapshot of call `k` too old for the specs then in force. */
  predicate TooOld(ops: seq<Op>, rid: Rid, k: nat, m: nat)
    requires k < |ops| && m < |ops|
  {
    ops[m].now - ops[k].now >= 1000 * LengthAt(ops, rid, m)
  }

  /** Some later call did. */
  ghost predicate Gone(ops: seq<Op>, rid: Rid, k: nat)
    requires k < |ops|
  {
    exists m :: k < m < |ops| && TooOld(ops, rid, k, m)
  }

  lemma TooOldBefore(ops: seq<Op>, rid: Rid, k: nat, m: nat)
    requires k < m < |ops| - 1
    ensures TooOld(ops[..|ops| - 1], rid, k, m) <==> TooOld(ops, rid, k, m)
  {
    assert ops[..|ops| - 1][..m + 1] == ops[..m + 1];
  }

  lemma GoneNext(ops: seq<Op>, rid: Rid, k: nat)
    requires k < |ops| - 1
    ensures Gone(ops, rid, k) <==> Gone(ops[..|ops| - 1], rid, k) || TooOld(ops, rid, k, |ops| - 1)
  {
    hide TooOld;
    var n := |ops| - 1;
    forall m | k < m < n
      ensures TooOld(ops[..n], rid, k, m) <==> TooOld(ops, rid, k, m)
    {
      TooOldBefore(ops, rid, k, m);
    }
  }

  ghost function Taken(op: Op, rid: Rid): seq<Snapshot> {
    if op.Timer? && rid in op.taken then [Snapshot(op.now, op.taken[rid])] else []
  }

  /** What one call does to the snapshots of one resource. */
  lemma StepGets(s: Collector, op: Op, rid: Rid)
    requires Possible(s, op)
    ensures var t := Step(s, op);
            Get(t.snaps, rid) ==
            if rid in t.active then Expire(Get(s.snaps, rid), t.active[rid].length, op.now) + Taken(op, rid) else []
    ensures var t := StepKeeping(s, op);
            Get(t.snaps, rid) == Get(s.snaps, rid) + if rid in t.active then Taken(op, rid) else []
  {
  }

  /** The snapshots of a list of timer calls. */
  ghost predicate Shows(snaps: seq<Snapshot>, ops: seq<Op>, rid: Rid, ks: seq<nat>) {
    && |snaps| == |ks|
    && (forall i :: 0 <= i < |ks| ==> ks[i] < |ops| && ops[ks[i]].Timer? && rid in ops[ks[i]].taken)
    && (forall i :: 0 <= i < |ks| ==> snaps[i] == Snapshot(ops[ks[i]].now, ops[ks[i]].taken[rid]))
    && (forall i, j :: 0 <= i < j < |ks| ==> ks[i] < ks[j])
  }

  lemma ShowsNext(snaps: seq<Snapshot>, ops: seq<Op>, rid: Rid, ks: seq<nat>)
    requires ops != [] && Shows(snaps, ops[..|ops| - 1], rid, ks)
    ensures Shows(snaps, ops, rid, ks)
    ensures var op := ops[|ops| - 1];
            op.Timer? && rid in op.taken ==> Shows(snaps + Taken(op, rid), ops, rid, ks + [|ops| - 1])
  {
  }

  /** The collector that keeps everything has exactly the snapshots of those calls. */
  lemma {:induction false} KeepingShows(ops: seq<Op>, rid: Rid)
    requires Timed(ops)
    ensures Shows(Get(RunKeeping(ops).snaps, rid), ops, rid, Calls(ops, rid))
    decreases |ops|
  {
    hide Run, RunKeeping, Shows, Taken, Get, Calls, Expire, LengthAt;
    if ops == [] {
      NothingYet(rid);
    } else {
      var before := ops[..|ops| - 1];
      LastCall(ops, rid);
      KeepingShows(before, rid);
      ShowsNext(Get(RunKeeping(before).snaps, rid), ops, rid, Calls(before, rid));
    }
  }

  /** What the last call of a run does to the snapshots of one resource, in both collectors. */
  lemma LastCall(ops: seq<Op>, rid: Rid)
    requires Timed(ops) && ops != []
    ensures var n := |ops| - 1; var before, op := ops[..n], ops[n]; var ks := Calls(before, rid);
            && Timed(before)
            && var short, full := Expire(Get(Run(before).snaps, rid), LengthAt(ops, rid, n), op.now), Get(RunKeeping(before).snaps, rid);
            if op.Timer? && rid in ActiveAfter(ops) then
              && rid in op.taken && Calls(ops, rid) == ks + [n]
              && Get(Run(ops).snaps, rid) == short + Taken(op, rid) && Get(RunKeeping(ops).snaps, rid) == full + Taken(op, rid)
            else
              && Calls(ops, rid) == ks && Get(RunKeeping(ops).snaps, rid) == full
              && Get(Run(ops).snaps, rid) == if rid in ActiveAfter(ops) then short else []
  {
    hide Step, StepKeeping, Expire, Get;
    var n := |ops| - 1;
    TimedBefore(ops);
    StepGets(Run(ops[..n]), ops[n], rid);
    StepGets(RunKeeping(ops[..n]), ops[n], rid);
    assert ops[..n + 1] == ops;
  }

  /** `short` is what is left of `full`: a suffix, and what is missing in front is exactly what is gone. */
  ghost predicate LeftOf(short: seq<Snapshot>, full: seq<Snapshot>, ops: seq<Op>, rid: Rid, ks: seq<nat>)
    requires |full| == |ks| && forall i :: 0 <= i < |ks| ==> ks[i] < |ops|
  {
    && |short| <= |full| && short == full[|full| - |short|..]
    && forall i :: 0 <= i < |ks| ==> (i < |full| - |short| <==> Gone(ops, rid, ks[i]))
  }

  lemma SuffixInOrder(full: seq<Snapshot>, g: nat, now: nat)
    requires InOrder(full, now) && g <= |full|
    ensures InOrder(full[g..], now)
  {
  }

  lemma TooOldIsSeen(full: seq<Snapshot>, ops: seq<Op>, rid: Rid, ks: seq<nat>, i: nat)
    requires ops != [] && Shows(full, ops[..|ops| - 1], rid, ks) && i < |ks|
    ensures TooOld(ops, rid, ks[i], |ops| - 1) <==> !Visible(full[i], LengthAt(ops, rid, |ops| - 1), ops[|ops| - 1].now)
  {
    hide LengthAt;
  }

  lemma ExpireLeaves(short: seq<Snapshot>, full: seq<Snapshot>, ops: seq<Op>, rid: Rid, ks: seq<nat>)
    requires ops != [] && Timed(ops)
    requires var before := ops[..|ops| - 1]; Shows(full, before, rid, ks) && LeftOf(short, full, before, rid, ks)
    ensures LeftOf(Expire(short, LengthAt(ops, rid, |ops| - 1), ops[|ops| - 1].now), full, ops, rid, ks)
  {
    hide Gone, TooOld, LengthAt, Visible, InOrder, Expire, Timed;
    var n := |ops| - 1;
    var length, now := LengthAt(ops, rid, n), ops[n].now;
    ShowsInTime(full, ops, rid, ks);
    var g := |full| - |short|;
    SuffixInOrder(full, g, now);
    ExpirePops(short, length, now);
    var left := Expire(short, length, now);
    assert left == full[|full| - |left|..];
    forall i | 0 <= i < |ks|
      ensures i < |full| - |left| <==> Gone(ops, rid, ks[i])
    {
      GoneNext(ops, rid, ks[i]);
      TooOldIsSeen(full, ops, rid, ks, i);
      if i >= g {
        assert short[i - g] == full[i];
      }
    }
  }

  lemma ShowsInTime(full: seq<Snapshot>, ops: seq<Op>, rid: Rid, ks: seq<nat>)
    requires ops != [] && Timed(ops) && Shows(full, ops[..|ops| - 1], rid, ks)
    ensures InOrder(full, ops[|ops| - 1].now)
  {
  }

  lemma PushLeaves(short: seq<Snapshot>, full: seq<Snapshot>, ops: seq<Op>, rid: Rid, ks: seq<nat>, x: Snapshot)
    requires ops != [] && |full| == |ks| && (forall i :: 0 <= i < |ks| ==> ks[i] < |ops|)
    requires LeftOf(short, full, ops, rid, ks)
    ensures LeftOf(short + [x], full + [x], ops, rid, ks + [|ops| - 1])
  {
    assert !Gone(ops, rid, |ops| - 1);
  }

  /** Nothing is left of what no spec names. */
  lemma DropLeaves(short: seq<Snapshot>, full: seq<Snapshot>, ops: seq<Op>, rid: Rid, ks: seq<nat>)
    requires ops != [] && Timed(ops) && rid !in ActiveAfter(ops)
    requires var before := ops[..|ops| - 1]; Shows(full, before, rid, ks) && LeftOf(short, full, before, rid, ks)
    ensures LeftOf([], full, ops, rid, ks)
  {
    hide LeftOf, Gone, Expire, InOrder, Visible;
    var n := |ops| - 1;
    ExpireLeaves(short, full, ops, rid, ks);
    assert ops[..n + 1] == ops;
    ShowsInTime(full, ops, rid, ks);
    AllExpire(short, full, ops[..n], rid, ks, ops[n].now);
  }

  lemma AllExpire(short: seq<Snapshot>, full: seq<Snapshot>, ops: seq<Op>, rid: Rid, ks: seq<nat>, now: nat)
    requires |full| == |ks| && (forall i :: 0 <= i < |ks| ==> ks[i] < |ops|)
    requires LeftOf(short, full, ops, rid, ks) && InOrder(full, now)
    ensures Expire(short, 0, now) == []
  {
    hide Gone, Expire;
    SuffixInOrder(full, |full| - |short|, now);
    ExpirePops(short, 0, now);
    assert short != [] ==> !Visible(short[|short| - 1], 0, now);
  }

  /**
   In every run with a clock that does not go back: of all the snapshots ever taken of a resource,
   the one of call `k` is gone exactly when some later call found it too old, as any is for a call
   after which no spec names the resource.
   */
  lemma {:induction false} GoneExactly(ops: seq<Op>, rid: Rid)
    requires Timed(ops)
    ensures Shows(Get(RunKeeping(ops).snaps, rid), ops, rid, Calls(ops, rid))
    ensures LeftOf(Get(Run(ops).snaps, rid), Get(RunKeeping(ops).snaps, rid), ops, rid, Calls(ops, rid))
    decreases |ops|
  {
    hide LeftOf, Shows, Run, RunKeeping, Gone, Expire, Calls, Get, LengthAt, Taken;
    KeepingShows(ops, rid);
    if ops == [] {
      NothingYet(rid);
    } else {
      var n := |ops| - 1;
      var before := ops[..n];
      LastCall(ops, rid);
      GoneExactly(before, rid);
      var short, full, ks := Get(Run(before).snaps, rid), Get(RunKeeping(before).snaps, rid), Calls(before, rid);
      ShowsSize(full, before, rid, ks);
      if rid !in ActiveAfter(ops) {
        DropLeaves(short, full, ops, rid, ks);
      } else {
        ExpireLeaves(short, full, ops, rid, ks);
        if ops[n].Timer? {
          var left := Expire(short, LengthAt(ops, rid, n), ops[n].now);
          PushLeaves(left, full, ops, rid, ks, Snapshot(ops[n].now, ops[n].taken[rid]));
          TakenIs(ops[n], rid);
        }
      }
    }
  }

  lemma ShowsSize(snaps: seq<Snapshot>, ops: seq<Op>, rid: Rid, ks: seq<nat>)
    requires Shows(snaps, ops, rid, ks)
    ensures |snaps| == |ks| && forall i :: 0 <= i < |ks| ==> ks[i] < |ops|
  {
  }

  lemma TakenIs(op: Op, rid: Rid)
    requires op.Timer? && rid in op.taken
    ensures Taken(op, rid) == [Snapshot(op.now, op.taken[rid])]
  {
  }

  lemma NothingYet(rid: Rid)
    ensures Get(Run([]).snaps, rid) == [] && Get(RunKeeping([]).snaps, rid) == [] && Calls([], rid) == []
    ensures LeftOf([], [], [], rid, []) && Shows([], [], rid, [])
  {
  }

  /**
   When expiry shows. After any run and for any spec, `Collect` returns what it would return had
   nothing been thrown away, exactly when every snapshot that is gone is also too old for the spec.
   Both sides of that are read off the calls.
   */
  lemma CollectsSameIff(ops: seq<Op>, spec: Spec, now: nat)
    requires Timed(ops)
    ensures Collect(Get(Run(ops).snaps, spec.rid), spec, now) == Collect(Get(RunKeeping(ops).snaps, spec.rid), spec, now) <==>
            forall i :: 0 <= i < |Calls(ops, spec.rid)| && Gone(ops, spec.rid, Calls(ops, spec.rid)[i]) ==>
              now - ops[Calls(ops, spec.rid)[i]].now >= 1000 * spec.length
  {
    hide Gone, Calls, Run, RunKeeping, Collect;
    GoneExactly(ops, spec.rid);
    var short, full := Get(Run(ops).snaps, spec.rid), Get(RunKeeping(ops).snaps, spec.rid);
    SuffixCollectsIff(full, |full| - |short|, spec, now);
  }

  /**
   Once there is a snapshot of the resource, no call asks for more of it than the call before it;
   a resource that is dropped and comes back is asked for more than nothing.
   */
  ghost predicate Steady(ops: seq<Op>, rid: Rid) {
    forall i, m :: 0 <= i < |Calls(ops, rid)| && Calls(ops, rid)[i] <= m < |ops| - 1 ==>
      LengthAt(ops, rid, m + 1) <= LengthAt(ops, rid, m)
  }

  lemma {:induction false} LengthsFall(ops: seq<Op>, rid: Rid, i: nat, m: nat)
    requires Steady(ops, rid) && i < |Calls(ops, rid)| && Calls(ops, rid)[i] <= m < |ops|
    ensures LengthAt(ops, rid, |ops| - 1) <= LengthAt(ops, rid, m)
    decreases |ops| - m
  {
    hide LengthAt, Calls;
    if m < |ops| - 1 {
      LengthsFall(ops, rid, i, m + 1);
      assert LengthAt(ops, rid, m + 1) <= LengthAt(ops, rid, m);
    }
  }

  /**
   In a run in which a resource is never asked for more than before, now and at any later time,
   every spec that its active one covers collects what it would collect had nothing ever been
   thrown away.
   */
  lemma ExpiryIsInvisible(ops: seq<Op>, spec: Spec, now: nat)
    requires Timed(ops) && Steady(ops, spec.rid) && (ops != [] ==> ops[|ops| - 1].now <= now)
    requires spec.rid in ActiveAfter(ops) && spec.length <= ActiveAfter(ops)[spec.rid].length
    ensures Collect(Get(Run(ops).snaps, spec.rid), spec, now) == Collect(Get(RunKeeping(ops).snaps, spec.rid), spec, now)
  {
    hide Run, RunKeeping, Collect, Calls, Active;
    var rid := spec.rid;
    forall i | 0 <= i < |Calls(ops, rid)| && Gone(ops, rid, Calls(ops, rid)[i])
      ensures now - ops[Calls(ops, rid)[i]].now >= 1000 * spec.length
    {
      var k := Calls(ops, rid)[i];
      var m :| k < m < |ops| && TooOld(ops, rid, k, m);
      LengthsFall(ops, rid, i, m);
      assert ops[..|ops| - 1 + 1] == ops;
      assert ops[m].now <= ops[|ops| - 1].now;
    }
    CollectsSameIff(ops, spec, now);
  }

  /** A run in which a lengthened spec misses a snapshot: taken at 0, found too old at 1000, asked for at 1000. */
  function Lengthening(x: Content): seq<Op> {
    [SetSpecs([Spec(7, 1, true, true)], 0), Timer(0, map[7 := x]), Timer(1000, map[7 := x]),
     SetSpecs([Spec(7, 2, true, true)], 1000)]
  }

  lemma ActiveOfOne(spec: Spec)
    ensures Active([spec]) == map[spec.rid := spec]
  {
    assert [spec][..0] == [];
  }

  lemma LengtheningActive(x: Content)
    ensures var ops := Lengthening(x);
            && ActiveAfter(ops[..0]) == map[]
            && ActiveAfter(ops[..1]) == ActiveAfter(ops[..2]) == ActiveAfter(ops[..3]) == map[7 := Spec(7, 1, true, true)]
            && ActiveAfter(ops) == map[7 := Spec(7, 2, true, true)]
    ensures Timed(Lengthening(x))
  {
    hide Active;
    ActiveOfOne(Spec(7, 1, true, true));
    ActiveOfOne(Spec(7, 2, true, true));
    var ops := Lengthening(x);
    assert ops[..3][..2] == ops[..2] && ops[..2][..1] == ops[..1];
  }

  lemma LengtheningCalls(x: Content)
    ensures Calls(Lengthening(x), 7) == [1, 2]
  {
    hide ActiveAfter;
    LengtheningActive(x);
    var ops := Lengthening(x);
    assert ops[..3][..2] == ops[..2] && ops[..2][..1] == ops[..1] && ops[..1][..0] == [] && ops[..4] == ops;
    assert Calls(ops[..1], 7) == [];
    assert Calls(ops[..2], 7) == [1];
    assert Calls(ops[..3], 7) == [1, 2];
  }

  lemma LongerSpecMisses(x: Content)
    ensures Timed(Lengthening(x))
    ensures var ops, spec := Lengthening(x), Spec(7, 2, true, true);
            && ActiveAfter(ops) == map[7 := spec]
            && Collect(Get(Run(ops).snaps, 7), spec, 1000) != Collect(Get(RunKeeping(ops).snaps, 7), spec, 1000)
  {
    hide Calls, ActiveAfter, Run, RunKeeping, Collect;
    var ops, spec := Lengthening(x), Spec(7, 2, true, true);
    LengtheningActive(x);
    LengtheningCalls(x);
    assert LengthAt(ops, 7, 2) == 1;
    assert TooOld(ops, 7, 1, 2) && Gone(ops, 7, 1);
    CollectsSameIff(ops, spec, 1000);
    assert Calls(ops, 7)[0] == 1;
  }

  /** A run in which a spec comes back that was never longer or shorter, and misses what it could see. */
  function Returning(x: Content): seq<Op> {
    [SetSpecs([Spec(7, 10, true, true)], 0), Timer(0, map[7 := x]), SetSpecs([], 0),
     SetSpecs([Spec(7, 10, true, true)], 0)]
  }

  lemma ReturningActive(x: Content)
    ensures var ops := Returning(x);
            && ActiveAfter(ops[..0]) == ActiveAfter(ops[..3]) == map[]
            && ActiveAfter(ops[..1]) == ActiveAfter(ops[..2]) == ActiveAfter(ops) == map[7 := Spec(7, 10, true, true)]
    ensures Timed(Returning(x))
  {
    hide Active;
    ActiveOfOne(Spec(7, 10, true, true));
    ActiveOfNone();
    var ops := Returning(x);
    assert ops[..2][..1] == ops[..1];
  }

  lemma ActiveOfNone()
    ensures Active([]) == map[]
  {
  }

  lemma ReturningCalls(x: Content)
    ensures Calls(Returning(x), 7) == [1]
  {
    hide ActiveAfter;
    ReturningActive(x);
    var ops := Returning(x);
    assert ops[..3][..2] == ops[..2] && ops[..2][..1] == ops[..1] && ops[..1][..0] == [] && ops[..4] == ops;
    assert Calls(ops[..1], 7) == [];
    assert Calls(ops[..2], 7) == [1];
    assert Calls(ops[..3], 7) == [1];
  }

  lemma ReturningSpecMisses(x: Content)
    ensures Timed(Returning(x))
    ensures var ops, spec := Returning(x), Spec(7, 10, true, true);
            && ActiveAfter(ops) == map[7 := spec]
            && Collect(Get(Run(ops).snaps, 7), spec, 0) != Collect(Get(RunKeeping(ops).snaps, 7), spec, 0)
  {
    hide Calls, ActiveAfter, Run, RunKeeping, Collect;
    var ops, spec := Returning(x), Spec(7, 10, true, true);
    ReturningActive(x);
    ReturningCalls(x);
    assert LengthAt(ops, 7, 2) == 0;
    assert TooOld(ops, 7, 1, 2) && Gone(ops, 7, 1);
    CollectsSameIff(ops, spec, 0);
    assert Calls(ops, 7)[0] == 1;
  }

  // ---------------------------------------------------------------------------------------
  // The object

  class StatisticsCollector {
    var snaps: map<Rid, seq<Snapshot>>
    var active: map<Rid, Spec>

    ghost function State(): Collector
      reads this
    {
      Collector(snaps, active)
    }

    constructor ()
      ensures State() == Collector(map[], map[])
    {
      snaps, active := map[], map[];
    }

    method CollectFor(spec: Spec, now: nat) returns (result: seq<Content>)
      ensures result == Collect(Get(snaps, spec.rid), spec, now)
      ensures Answers(result, Fresh(Get(snaps, spec.rid), spec.length, now), spec)
    {
      CollectAnswers(Get(snaps, spec.rid), spec, now);
      result := [];
      if spec.rid in snaps {
        var deque := snaps[spec.rid];
        assert deque[0..] == deque;
        for i := 0 to |deque|
          invariant result + Collect(deque[i..], spec, now) == Collect(deque, spec, now)
        {
          assert deque[i..][1..] == deque[i + 1..];
          if now - deque[i].at < spec.length * 1000 {
            result := result + [Convert(deque[i], spec)];
          }
        }
      }
    }

    method SetActiveCollectionSpecs(specs: seq<Spec>, now: nat)
      modifies this
      ensures State() == Step(old(State()), SetSpecs(specs, now))
    {
      active := Fold(specs);
      RemoveExpiredStatistics(now);
    }

    static method Fold(specs: seq<Spec>) returns (active: map<Rid, Spec>)
      ensures active == Active(specs)
    {
      active := map[];
      assert specs[..0] == [];
      for i := 0 to |specs|
        invariant active == Active(specs[..i])
      {
        assert specs[..i + 1][..i] == specs[..i];
        var spec := specs[i];
        if spec.rid !in active {
          active := active[spec.rid := spec];
        } else {
          active := active[spec.rid := Union(active[spec.rid], spec)];
        }
      }
      assert specs[..|specs|] == specs;
    }

    method RemoveExpiredStatistics(now: nat)
      modifies `snaps
      ensures State() == RemoveExpired(old(State()), now)
    {
      snaps := ExpireAll(snaps, active, now);
    }

    /** Visits every resource once, in any order. */
    static method ExpireAll(snaps: map<Rid, seq<Snapshot>>, active: map<Rid, Spec>, now: nat)
      returns (left: map<Rid, seq<Snapshot>>)
      ensures left == RemoveExpired(Collector(snaps, active), now).snaps
    {
      left := map[];
      var todo := snaps.Keys;
      while todo != {}
        invariant todo <= snaps.Keys
        invariant left == map rid | rid in snaps && rid in active && rid !in todo :: Expire(snaps[rid], active[rid].length, now)
        decreases todo
      {
        var rid :| rid in todo;
        if rid in active {
          var deque := PopExpired(snaps[rid], active[rid].length, now);
          left := left[rid := deque];
        }
        todo := todo - {rid};
      }
    }

    static method PopExpired(snaps: seq<Snapshot>, length: nat, now: nat) returns (left: seq<Snapshot>)
      ensures left == Expire(snaps, length, now)
    {
      left := snaps;
      while |left| > 0
        invariant Expire(left, length, now) == Expire(snaps, length, now)
      {
        if now - left[0].at < 1000 * length {
          break;
        }
        left := left[1..];
      }
    }

    method OnTimerElapsed(now: nat, taken: map<Rid, Content>)
      requires Takes(active, taken)
      modifies this
      ensures State() == Step(old(State()), Timer(now, taken))
    {
      RemoveExpiredStatistics(now);
      if |active| == 0 {
        return;
      }
      snaps := PushAll(snaps, active, now, taken);
    }

    static method PushAll(snaps: map<Rid, seq<Snapshot>>, active: map<Rid, Spec>, now: nat, taken: map<Rid, Content>)
      returns (pushed: map<Rid, seq<Snapshot>>)
      requires Takes(active, taken) && snaps.Keys <= active.Keys
      ensures pushed == Push(Collector(snaps, active), now, taken).snaps
    {
      pushed := snaps;
      var todo := active.Keys;
      while todo != {}
        invariant todo <= active.Keys
        invariant pushed == map rid | rid in active && (rid in snaps || rid !in todo) ::
                    if rid !in todo then Get(snaps, rid) + [Snapshot(now, taken[rid])] else snaps[rid]
        decreases todo
      {
        var rid :| rid in todo;
        pushed := pushed[rid := Get(pushed, rid) + [Snapshot(now, taken[rid])]];
        todo := todo - {rid};
      }
    }
  }
}
