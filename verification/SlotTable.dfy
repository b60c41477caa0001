/**
 The table of resources being downloaded: 256 slots with linear probing, next to a map of what
 is attached. Removing an entry clears its slot and leaves no mark.
 */
module SlotTables {

  /** A resource identifier; zero is the null identifier that marks an empty slot. */
  type Rid = nat

  const SIZE: nat := 256

  datatype Table = Table(slots: seq<Rid>, count: int, attached: set<Rid>)

  datatype Op = Attach(rid: Rid) | Detach(rid: Rid)

  /** The slot `k` steps down the probe path of `home`. */
  function Slot(home: nat, k: nat): (s: nat)
    ensures s < SIZE
  {
    (home + k) % SIZE
  }

  /** How far the probe from `home` goes on after `k` steps: to the identifier, to an empty slot, or all around. */
  function Steps(slots: seq<Rid>, home: nat, rid: Rid, k: nat): (n: nat)
    requires |slots| == SIZE && k <= SIZE
    ensures k <= n <= SIZE
    ensures forall j :: k <= j < n ==> slots[Slot(home, j)] != 0 && slots[Slot(home, j)] != rid
    ensures n < SIZE ==> slots[Slot(home, n)] == 0 || slots[Slot(home, n)] == rid
    decreases SIZE - k
  {
    if k == SIZE || slots[Slot(home, k)] == 0 || slots[Slot(home, k)] == rid then k
    else Steps(slots, home, rid, k + 1)
  }

  function Address(slots: seq<Rid>, hash: Rid -> nat, rid: Rid): (pos: nat)
    requires |slots| == SIZE
    ensures pos < SIZE
  {
    Slot(hash(rid) % SIZE, Steps(slots, hash(rid) % SIZE, rid, 0))
  }

  function Occupied(slots: seq<Rid>): (n: nat)
    ensures n <= |slots|
  {
    if slots == [] then 0 else (if slots[0] != 0 then 1 else 0) + Occupied(slots[1..])
  }

  const EMPTY := Table(seq(SIZE, k => 0), 0, {})

  function AttachRid(t: Table, hash: Rid -> nat, rid: Rid): Table
    requires |t.slots| == SIZE
  {
    if rid in t.attached || t.count == SIZE - 1 then t
    else
      var pos := Address(t.slots, hash, rid);
      if t.slots[pos] == 0 then Table(t.slots[pos := rid], t.count + 1, t.attached + {rid})
      else t.(attached := t.attached + {rid})
  }

  function DetachRid(t: Table, hash: Rid -> nat, rid: Rid): Table
    requires |t.slots| == SIZE
  {
    if rid !in t.attached then t
    else
      var pos := Address(t.slots, hash, rid);
      if t.slots[pos] == rid then Table(t.slots[pos := 0], t.count - 1, t.attached - {rid})
      else t.(attached := t.attached - {rid})
  }

  /** What every run keeps: the count is right, a slot is free, and whatever is attached has a slot. */
  ghost predicate Inv(t: Table) {
    && |t.slots| == SIZE
    && t.count == Occupied(t.slots) <= SIZE - 1
    && 0 !in t.attached
    && forall r :: r in t.attached ==> r in t.slots
  }

  // ---------------------------------------------------------------------------------------
  // Counting and probing

  lemma {:induction false} OccupiedUpdate(slots: seq<Rid>, pos: nat, rid: Rid)
    requires pos < |slots|
    ensures Occupied(slots[pos := rid]) ==
            Occupied(slots) - (if slots[pos] != 0 then 1 else 0) + (if rid != 0 then 1 else 0)
    decreases |slots|
  {
    if pos > 0 {
      OccupiedUpdate(slots[1..], pos - 1, rid);
      assert slots[pos := rid][1..] == slots[1..][pos - 1 := rid];
    } else {
      assert slots[pos := rid][1..] == slots[1..];
    }
  }

  lemma {:induction false} SomeFree(slots: seq<Rid>) returns (pos: nat)
    requires Occupied(slots) < |slots|
    ensures pos < |slots| && slots[pos] == 0
    decreases |slots|
  {
    if slots[0] == 0 {
      pos := 0;
    } else {
      pos := SomeFree(slots[1..]);
      pos := pos + 1;
    }
  }

  lemma {:induction false} SomeOccupied(slots: seq<Rid>, rid: Rid)
    requires rid in slots && rid != 0
    ensures Occupied(slots) > 0
    decreases |slots|
  {
    if slots[0] != rid {
      SomeOccupied(slots[1..], rid);
    }
  }

  /** Every slot lies on every probe path. */
  lemma OnPath(home: nat, pos: nat) returns (k: nat)
    requires pos < SIZE
    ensures k < SIZE && Slot(home, k) == pos
  {
    k := (pos - home) % SIZE;
  }

  /** As long as a slot is free, the probe ends at the identifier or at an empty slot. */
  lemma AddressStops(t: Table, hash: Rid -> nat, rid: Rid)
    requires |t.slots| == SIZE && Occupied(t.slots) < SIZE
    ensures Steps(t.slots, hash(rid) % SIZE, rid, 0) < SIZE
    ensures var found := t.slots[Address(t.slots, hash, rid)]; found == 0 || found == rid
  {
    var free := SomeFree(t.slots);
    var k := OnPath(hash(rid) % SIZE, free);
  }

  // ---------------------------------------------------------------------------------------
  // What every step keeps

  lemma AttachKeepsInvIff(t: Table, hash: Rid -> nat, rid: Rid)
    requires Inv(t)
    ensures Inv(AttachRid(t, hash, rid)) <==> rid != 0 || t.count == SIZE - 1
  {
    AddressStops(t, hash, rid);
    var pos := Address(t.slots, hash, rid);
    OccupiedUpdate(t.slots, pos, rid);
    if rid !in t.attached && t.count != SIZE - 1 && t.slots[pos] == 0 {
      var s := t.slots[pos := rid];
      assert s[pos] == rid;
      forall r | r in t.attached
        ensures r in s
      {
        var i :| 0 <= i < SIZE && t.slots[i] == r;
        assert s[i] == r;
      }
    }
  }

  lemma DetachKeepsInv(t: Table, hash: Rid -> nat, rid: Rid)
    requires Inv(t)
    ensures Inv(DetachRid(t, hash, rid))
  {
    if rid in t.attached {
      var pos := Address(t.slots, hash, rid);
      OccupiedUpdate(t.slots, pos, 0);
      forall r | r in t.attached && r != rid && t.slots[pos] == rid
        ensures r in t.slots[pos := 0]
      {
        var i :| 0 <= i < SIZE && t.slots[i] == r;
        assert t.slots[pos := 0][i] == r;
      }
    }
  }

  function Step(t: Table, hash: Rid -> nat, op: Op): (u: Table)
    requires |t.slots| == SIZE
    ensures |u.slots| == SIZE
  {
    match op
    case Attach(rid) => AttachRid(t, hash, rid)
    case Detach(rid) => DetachRid(t, hash, rid)
  }

  function Run(t: Table, hash: Rid -> nat, ops: seq<Op>): Table
    requires |t.slots| == SIZE
    decreases |ops|
  {
    if ops == [] then t else Run(Step(t, hash, ops[0]), hash, ops[1..])
  }

  /** Any run over non-null identifiers keeps the count right and every attached identifier in some slot. */
  lemma {:induction false} RunKeepsInv(t: Table, hash: Rid -> nat, ops: seq<Op>)
    requires Inv(t) && forall op :: op in ops ==> op.rid != 0
    ensures Inv(Run(t, hash, ops))
    decreases |ops|
  {
    if ops != [] {
      assert ops[0] in ops;
      AttachKeepsInvIff(t, hash, ops[0].rid);
      DetachKeepsInv(t, hash, ops[0].rid);
      RunKeepsInv(Step(t, hash, ops[0]), hash, ops[1..]);
    }
  }

  lemma EmptyIsValid()
    ensures Inv(EMPTY) && forall hash: Rid -> nat :: Tight(EMPTY, hash)
  {
    AllFree(EMPTY.slots);
  }

  lemma {:induction false} AllFree(slots: seq<Rid>)
    requires forall k :: 0 <= k < |slots| ==> slots[k] == 0
    ensures Occupied(slots) == 0
    decreases |slots|
  {
    if slots != [] {
      AllFree(slots[1..]);
    }
  }

  // ---------------------------------------------------------------------------------------
  // What a run leaves attached

  /** An identifier goes to its home slot if that is free, and else behind a neighbour that has it. */
  lemma HomeFirst(slots: seq<Rid>, hash: Rid -> nat, rid: Rid)
    requires |slots| == SIZE && rid != 0
    ensures var home := hash(rid) % SIZE; var next := (home + 1) % SIZE;
            && (slots[home] == 0 || slots[home] == rid ==> Address(slots, hash, rid) == home)
            && (slots[home] != 0 && slots[home] != rid && (slots[next] == 0 || slots[next] == rid) ==>
                  Address(slots, hash, rid) == next)
  {
    var home := hash(rid) % SIZE;
    SlotStart(home);
    assert Slot(home, 1) == (home + 1) % SIZE;
  }

  /** Attaching adds the identifier, to the map and to the slots, unless the table is full; no other is touched. */
  lemma AttachAttaches(t: Table, hash: Rid -> nat, rid: Rid)
    requires Inv(t) && rid != 0
    ensures var u := Step(t, hash, Attach(rid)); var full := t.count == SIZE - 1 && rid !in t.attached;
            && u.attached == (if full then t.attached else t.attached + {rid})
            && (!full ==> rid in u.slots)
            && (forall r :: r != rid && r != 0 ==> (r in u.slots <==> r in t.slots))
  {
    AttachKeepsInvIff(t, hash, rid);
    AddressStops(t, hash, rid);
    var pos := Address(t.slots, hash, rid);
    if t.slots[pos] == 0 {
      SlotUpdate(t.slots, pos, rid);
    }
  }

  /** Detaching takes it out of the map; no other identifier is touched. */
  lemma DetachDetaches(t: Table, hash: Rid -> nat, rid: Rid)
    requires Inv(t)
    ensures var u := Step(t, hash, Detach(rid));
            && u.attached == t.attached - {rid}
            && (forall r :: r != rid && r != 0 ==> (r in u.slots <==> r in t.slots))
  {
    var pos := Address(t.slots, hash, rid);
    if t.slots[pos] == rid {
      SlotUpdate(t.slots, pos, 0);
    }
  }

  lemma SlotUpdate(slots: seq<Rid>, pos: nat, v: Rid)
    requires pos < |slots|
    ensures forall r :: r != v && r != slots[pos] ==> (r in slots[pos := v] <==> r in slots)
  {
    var s := slots[pos := v];
    forall r | r != v && r != slots[pos]
      ensures r in s <==> r in slots
    {
      if r in s {
        var i :| 0 <= i < |s| && s[i] == r;
        assert slots[i] == r;
      }
      if r in slots {
        var i :| 0 <= i < |slots| && slots[i] == r;
        assert s[i] == r;
      }
    }
  }

  /** Whether the last call for `rid` attaches it; `was` when there is no call for it. */
  function LastAttaches(ops: seq<Op>, rid: Rid, was: bool): bool {
    if ops == [] then was
    else
      var last := ops[|ops| - 1];
      if last.rid == rid then last.Attach? else LastAttaches(ops[..|ops| - 1], rid, was)
  }

  /** No attaching finds the table full. */
  ghost predicate RoomRun(t: Table, hash: Rid -> nat, ops: seq<Op>)
    requires |t.slots| == SIZE
    decreases |ops|
  {
    ops == [] || ((ops[0].Attach? ==> t.count < SIZE - 1) && RoomRun(Step(t, hash, ops[0]), hash, ops[1..]))
  }

  lemma {:induction false} LastAttachesFirst(ops: seq<Op>, rid: Rid, was: bool)
    requires ops != []
    ensures LastAttaches(ops, rid, was) == LastAttaches(ops[1..], rid, if ops[0].rid == rid then ops[0].Attach? else was)
    decreases |ops|
  {
    var n := |ops| - 1;
    if n > 0 {
      assert ops[1..][n - 1] == ops[n] && ops[1..][..n - 1] == ops[..n][1..];
      LastAttachesFirst(ops[..n], rid, was);
    }
  }

  /** After any run in which the table is never full, what is attached is what the last call for it attached. */
  lemma {:induction false} LastCallDecides(t: Table, hash: Rid -> nat, ops: seq<Op>, rid: Rid)
    requires Inv(t) && RoomRun(t, hash, ops) && forall op :: op in ops ==> op.rid != 0
    ensures rid in Run(t, hash, ops).attached <==> LastAttaches(ops, rid, rid in t.attached)
    decreases |ops|
  {
    hide Step, LastAttaches;
    if ops == [] {
      LastOfNone(rid, rid in t.attached);
    } else {
      assert ops[0] in ops;
      StepKeepsInv(t, hash, ops[0]);
      StepAttaches(t, hash, ops[0]);
      LastAttachesFirst(ops, rid, rid in t.attached);
      LastCallDecides(Step(t, hash, ops[0]), hash, ops[1..], rid);
    }
  }

  lemma LastOfNone(rid: Rid, was: bool)
    ensures LastAttaches([], rid, was) == was
  {
  }

  lemma StepKeepsInv(t: Table, hash: Rid -> nat, op: Op)
    requires Inv(t) && op.rid != 0
    ensures Inv(Step(t, hash, op))
  {
    AttachKeepsInvIff(t, hash, op.rid);
    DetachKeepsInv(t, hash, op.rid);
  }

  lemma StepAttaches(t: Table, hash: Rid -> nat, op: Op)
    requires Inv(t) && op.rid != 0 && (op.Attach? ==> t.count < SIZE - 1)
    ensures Step(t, hash, op).attached == if op.Attach? then t.attached + {op.rid} else t.attached - {op.rid}
  {
    AttachAttaches(t, hash, op.rid);
    DetachDetaches(t, hash, op.rid);
  }

  // ---------------------------------------------------------------------------------------
  // When the table shows exactly what is attached

  /** Every occupied slot holds an attached identifier and is where a probe for it ends. */
  ghost predicate Tight(t: Table, hash: Rid -> nat) {
    && |t.slots| == SIZE
    && forall p :: 0 <= p < SIZE && t.slots[p] != 0 ==>
         t.slots[p] in t.attached && Address(t.slots, hash, t.slots[p]) == p
  }

  /** Steps from `home` to slot `p`. */
  function Distance(home: nat, p: nat): nat {
    (p - home) % SIZE
  }

  /** The probe for the identifier in slot `p` passes over slot `q`. */
  predicate PassesOver(slots: seq<Rid>, hash: Rid -> nat, p: nat, q: nat)
    requires |slots| == SIZE && p < SIZE
  {
    Distance(hash(slots[p]) % SIZE, q) < Distance(hash(slots[p]) % SIZE, p)
  }

  lemma SlotStart(home: nat)
    requires home < SIZE
    ensures Slot(home, 0) == home
  {
  }

  lemma SlotNext(home: nat, k: nat)
    ensures Slot(home, k + 1) == (Slot(home, k) + 1) % SIZE
  {
  }

  lemma SlotDistance(home: nat, p: nat, k: nat)
    requires home < SIZE && p < SIZE && k < SIZE
    ensures Slot(home, k) == p <==> k == Distance(home, p)
  {
  }

  /** A probe that ends at `p` took the distance to `p`, and `StepsAre` says what decides that. */
  lemma {:induction false} StepsAre(slots: seq<Rid>, home: nat, rid: Rid, k: nat, n: nat)
    requires |slots| == SIZE && k <= n < SIZE
    requires forall j :: k <= j < n ==> slots[Slot(home, j)] != 0 && slots[Slot(home, j)] != rid
    requires slots[Slot(home, n)] == 0 || slots[Slot(home, n)] == rid
    ensures Steps(slots, home, rid, k) == n
    decreases n - k
  {
    if k < n {
      StepsAre(slots, home, rid, k + 1, n);
    }
  }

  lemma TightSteps(t: Table, hash: Rid -> nat, p: nat)
    requires Inv(t) && Tight(t, hash) && p < SIZE && t.slots[p] != 0
    ensures var home := hash(t.slots[p]) % SIZE;
            && Steps(t.slots, home, t.slots[p], 0) == Distance(home, p) < SIZE
            && Slot(home, Distance(home, p)) == p
  {
    var home := hash(t.slots[p]) % SIZE;
    AddressStops(t, hash, t.slots[p]);
    SlotDistance(home, p, Steps(t.slots, home, t.slots[p], 0));
  }

  /** In a tight table no identifier has two slots. */
  lemma TightIsUnique(t: Table, hash: Rid -> nat, p: nat, q: nat)
    requires Tight(t, hash) && p < SIZE && q < SIZE && t.slots[p] == t.slots[q] != 0
    ensures p == q
  {
    assert Address(t.slots, hash, t.slots[p]) == p;
    assert Address(t.slots, hash, t.slots[q]) == q;
  }

  /** An update of slot `q` leaves a probe alone that ends at `p` without passing over `q`. */
  lemma ProbeUnchanged(t: Table, hash: Rid -> nat, p: nat, q: nat, v: Rid)
    requires Inv(t) && Tight(t, hash) && p < SIZE && q < SIZE && p != q && t.slots[p] != 0
    requires !PassesOver(t.slots, hash, p, q)
    ensures Address(t.slots[q := v], hash, t.slots[p]) == p
  {
    var rid, s := t.slots[p], t.slots[q := v];
    var home := hash(rid) % SIZE;
    TightSteps(t, hash, p);
    var n := Distance(home, p);
    forall j | 0 <= j < n
      ensures s[Slot(home, j)] == t.slots[Slot(home, j)]
    {
      SlotDistance(home, q, j);
    }
    StepsAre(s, home, rid, 0, n);
  }

  /** Clearing a slot that the probe does pass over makes it end there. */
  lemma ProbeCut(t: Table, hash: Rid -> nat, p: nat, q: nat)
    requires Inv(t) && Tight(t, hash) && p < SIZE && q < SIZE && t.slots[p] != 0
    requires PassesOver(t.slots, hash, p, q)
    ensures Address(t.slots[q := 0], hash, t.slots[p]) == q != p
  {
    var rid, s := t.slots[p], t.slots[q := 0];
    var home := hash(rid) % SIZE;
    TightSteps(t, hash, p);
    var n := Distance(home, q);
    SlotDistance(home, q, n);
    forall j | 0 <= j < n
      ensures s[Slot(home, j)] == t.slots[Slot(home, j)]
    {
      SlotDistance(home, q, j);
    }
    StepsAre(s, home, rid, 0, n);
  }

  lemma AttachKeepsTight(t: Table, hash: Rid -> nat, rid: Rid)
    requires Inv(t) && Tight(t, hash) && rid != 0
    ensures Tight(AttachRid(t, hash, rid), hash)
  {
    if rid !in t.attached && t.count != SIZE - 1 {
      AddressStops(t, hash, rid);
      var home := hash(rid) % SIZE;
      var n := Steps(t.slots, home, rid, 0);
      var q := Slot(home, n);
      var s := t.slots[q := rid];
      forall p | 0 <= p < SIZE && p != q && t.slots[p] != 0
        ensures Address(s, hash, t.slots[p]) == p
      {
        TightSteps(t, hash, p);
        var h := hash(t.slots[p]) % SIZE;
        SlotDistance(h, q, Distance(h, q));
        ProbeUnchanged(t, hash, p, q, rid);
      }
      forall j | 0 <= j < n
        ensures s[Slot(home, j)] == t.slots[Slot(home, j)]
      {
        SlotDistance(home, q, j);
        SlotDistance(home, q, n);
      }
      StepsAre(s, home, rid, 0, n);
    }
  }

  /** From a tight table, detaching clears the slot; the table stays tight exactly when no other probe passed over it. */
  lemma DetachKeepsTightIff(t: Table, hash: Rid -> nat, rid: Rid)
    requires Inv(t) && Tight(t, hash) && rid in t.attached
    ensures var q := Address(t.slots, hash, rid);
            && t.slots[q] == rid && rid !in DetachRid(t, hash, rid).slots
            && (Tight(DetachRid(t, hash, rid), hash) <==>
                forall p :: 0 <= p < SIZE && p != q && t.slots[p] != 0 ==> !PassesOver(t.slots, hash, p, q))
  {
    hide Address, PassesOver, Occupied;
    var at :| 0 <= at < SIZE && t.slots[at] == rid;
    var q := Address(t.slots, hash, rid);
    assert q == at;
    var s := t.slots[q := 0];
    forall p | 0 <= p < SIZE && t.slots[p] == rid
      ensures p == q
    {
      TightIsUnique(t, hash, p, q);
    }
    forall p | 0 <= p < SIZE && p != q && t.slots[p] != 0
      ensures s[p] == t.slots[p] && s[p] != rid && s[p] in t.attached - {rid}
      ensures Address(s, hash, s[p]) == p <==> !PassesOver(t.slots, hash, p, q)
    {
      if PassesOver(t.slots, hash, p, q) {
        ProbeCut(t, hash, p, q);
      } else {
        ProbeUnchanged(t, hash, p, q, 0);
      }
    }
    assert DetachRid(t, hash, rid) == Table(s, t.count - 1, t.attached - {rid});
    assert forall p :: 0 <= p < SIZE && p != q ==> s[p] == t.slots[p];
  }

  /** Detaching `rid` cuts no probe for another identifier. */
  ghost predicate Uncut(t: Table, hash: Rid -> nat, rid: Rid)
    requires |t.slots| == SIZE
  {
    var q := Address(t.slots, hash, rid);
    forall p :: 0 <= p < SIZE && p != q && t.slots[p] != 0 ==> !PassesOver(t.slots, hash, p, q)
  }

  /** No detaching of an attached identifier does so in the whole run. */
  ghost predicate UncutRun(t: Table, hash: Rid -> nat, ops: seq<Op>)
    requires |t.slots| == SIZE
    decreases |ops|
  {
    ops == [] ||
    (&& (ops[0].Detach? && ops[0].rid in t.attached ==> Uncut(t, hash, ops[0].rid))
     && UncutRun(Step(t, hash, ops[0]), hash, ops[1..]))
  }

  ghost predicate TightThroughout(t: Table, hash: Rid -> nat, ops: seq<Op>)
    requires |t.slots| == SIZE
    decreases |ops|
  {
    Tight(t, hash) && (ops == [] || TightThroughout(Step(t, hash, ops[0]), hash, ops[1..]))
  }

  lemma StepKeepsTightIff(t: Table, hash: Rid -> nat, op: Op)
    requires Inv(t) && Tight(t, hash) && op.rid != 0
    ensures Inv(Step(t, hash, op))
    ensures Tight(Step(t, hash, op), hash) <==> (op.Detach? && op.rid in t.attached ==> Uncut(t, hash, op.rid))
  {
    hide Tight, Inv;
    match op
    case Attach(rid) =>
      AttachKeepsInvIff(t, hash, rid);
      AttachKeepsTight(t, hash, rid);
    case Detach(rid) =>
      DetachKeepsInv(t, hash, rid);
      if rid in t.attached {
        DetachKeepsTightIff(t, hash, rid);
      }
  }

  /**
   Any run over non-null identifiers: the table shows exactly what is attached all the way exactly
   when no detaching cuts a probe for another identifier.
   */
  lemma {:induction false} RunKeepsTightIff(t: Table, hash: Rid -> nat, ops: seq<Op>)
    requires Inv(t) && Tight(t, hash) && forall op :: op in ops ==> op.rid != 0
    ensures TightThroughout(t, hash, ops) <==> UncutRun(t, hash, ops)
    decreases |ops|
  {
    hide Tight, Uncut, Step;
    if ops != [] {
      assert ops[0] in ops;
      StepKeepsTightIff(t, hash, ops[0]);
      if Tight(Step(t, hash, ops[0]), hash) {
        RunKeepsTightIff(Step(t, hash, ops[0]), hash, ops[1..]);
      }
    }
  }

  /** The shortest run that leaves an identifier behind: two that collide, detached in the order they came. */
  lemma CollidingRemovalLeaks(hash: Rid -> nat)
    requires hash(1) % SIZE == hash(2) % SIZE == 0
    ensures var t := Run(EMPTY, hash, [Attach(1), Attach(2), Detach(1), Detach(2)]);
            t.attached == {} && t.slots[1] == 2 && t.count == 1
  {
    var t1 := AttachRid(EMPTY, hash, 1);
    StepsAre(EMPTY.slots, 0, 1, 0, 0);
    var t2 := AttachRid(t1, hash, 2);
    StepsAre(t1.slots, 0, 2, 0, 1);
    var t3 := DetachRid(t2, hash, 1);
    StepsAre(t2.slots, 0, 1, 0, 0);
    StepsAre(t3.slots, 0, 2, 0, 0);
    var t4 := DetachRid(t3, hash, 2);
    var ops := [Attach(1), Attach(2), Detach(1), Detach(2)];
    assert ops[1..] == [Attach(2), Detach(1), Detach(2)] && ops[1..][1..] == [Detach(1), Detach(2)];
    assert ops[1..][1..][1..] == [Detach(2)] && ops[1..][1..][1..][1..] == [];
    assert Run(EMPTY, hash, ops) == Run(t1, hash, ops[1..]) == Run(t2, hash, ops[1..][1..]);
    assert Run(t2, hash, ops[1..][1..]) == Run(t3, hash, [Detach(2)]) == Run(t4, hash, []);
  }

  // ---------------------------------------------------------------------------------------
  // The object

  class StatisticModule {
    const hash: Rid -> nat
    const slots: array<Rid>
    var count: int
    var attached: set<Rid>

    ghost function State(): Table
      reads this, slots
    {
      Table(slots[..], count, attached)
    }

    ghost predicate Valid()
      reads this, slots
    {
      slots.Length == SIZE && Inv(State())
    }

    constructor (hash: Rid -> nat)
      ensures Valid() && State() == EMPTY && fresh(slots) && this.hash == hash
    {
      this.hash := hash;
      count, attached := 0, {};
      slots := new Rid[SIZE](_ => 0);
      new;
      EmptyIsValid();
      assert slots[..] == EMPTY.slots;
    }

    method AddressOf(rid: Rid) returns (pos: nat)
      requires slots.Length == SIZE
      ensures pos == Address(slots[..], hash, rid)
    {
      pos := Probe(slots[..], hash(rid) % SIZE, rid);
    }

    /** The probing loop; its step counter only stops it on a table without a free slot. */
    static method Probe(slots: seq<Rid>, home: nat, rid: Rid) returns (pos: nat)
      requires |slots| == SIZE && home < SIZE
      ensures pos == Slot(home, Steps(slots, home, rid, 0))
    {
      hide Slot;
      SlotStart(home);
      pos := home;
      var steps := 0;
      while slots[pos] != 0 && steps < SIZE
        invariant 0 <= steps <= SIZE && pos == Slot(home, steps)
        invariant Steps(slots, home, rid, steps) == Steps(slots, home, rid, 0)
        decreases SIZE - steps
      {
        if slots[pos] == rid {
          return;
        }
        SlotNext(home, steps);
        pos := (pos + 1) % SIZE;
        steps := steps + 1;
      }
    }

    method AttachP2PDownloaderStatistic(rid: Rid)
      requires Valid()
      modifies this, slots
      ensures State() == AttachRid(old(State()), hash, rid)
      ensures Valid() <==> rid != 0 || old(count) == SIZE - 1
    {
      AttachKeepsInvIff(State(), hash, rid);
      if rid in attached || count == SIZE - 1 {
        return;
      }
      var pos := AddressOf(rid);
      if slots[pos] == 0 {
        count := count + 1;
        slots[pos] := rid;
      }
      attached := attached + {rid};
    }

    method DetachP2PDownloaderStatistic(rid: Rid) returns (ok: bool)
      requires Valid()
      modifies this, slots
      ensures Valid() && State() == DetachRid(old(State()), hash, rid)
      ensures ok <==> rid in old(attached)
    {
      DetachKeepsInv(State(), hash, rid);
      if rid !in attached {
        return false;
      }
      attached := attached - {rid};
      var pos := AddressOf(rid);
      if slots[pos] == rid {
        count := count - 1;
        slots[pos] := 0;
      }
      ok := true;
    }
  }
}
