/**
 The sliding-window speed meter: a ring of sixty one-second slots, proved against a plain log of
 what was submitted in which second.
 */
module ByteSpeedMeters {
  import opened Bytes
  import opened Arithmetic

  const RING: nat := 60

  datatype Event = Event(sec: nat, bytes: Uint32)

  /** Bytes the log holds for second `sec`. */
  ghost function BytesIn(log: seq<Event>, sec: int): nat {
    if log == [] then 0
    else BytesIn(log[..|log| - 1], sec) + if log[|log| - 1].sec == sec then log[|log| - 1].bytes else 0
  }

  /** What a 32-bit slot can show of it. */
  ghost function Slot(log: seq<Event>, sec: int): Uint32 {
    BytesIn(log, sec) % TWO_32
  }

  /** The slots of seconds `lo` to `hi` together. */
  ghost function Slots(log: seq<Event>, lo: int, hi: int): nat
    decreases hi - lo + 1
  {
    if hi < lo then 0 else Slots(log, lo, hi - 1) + Slot(log, hi)
  }

  /** The bytes of every event from second `lo` to second `hi`, in one pass over the log. */
  ghost function LoggedBetween(log: seq<Event>, lo: int, hi: int): nat {
    if log == [] then 0
    else LoggedBetween(log[..|log| - 1], lo, hi)
         + if lo <= log[|log| - 1].sec <= hi then log[|log| - 1].bytes else 0
  }

  /** The last second up to `cur` that falls into slot `k`; negative before the first minute is over. */
  function SecondOf(cur: int, k: int): int {
    cur - (cur - k) % RING
  }

  ghost predicate RingShows(ring: seq<Uint32>, log: seq<Event>, cur: nat) {
    && |ring| == RING
    && (forall e :: e in log ==> e.sec <= cur)
    && (forall k :: 0 <= k < RING ==> ring[k] == Slot(log, SecondOf(cur, k)))
  }

  // ---------------------------------------------------------------------------------------
  // Slots and seconds

  lemma SecondOfSlot(cur: int, k: int, s: int)
    requires 0 <= k < RING && cur - RING < s <= cur
    ensures SecondOf(cur, k) == s <==> k == s % RING
  {
  }

  /** The slot of any of the last sixty seconds shows that second. */
  lemma RingSlot(ring: seq<Uint32>, log: seq<Event>, cur: nat, s: int)
    requires RingShows(ring, log, cur) && cur - RING < s <= cur
    ensures ring[s % RING] == Slot(log, s)
  {
    SecondOfSlot(cur, s % RING, s);
  }

  lemma {:induction false} NothingLogged(log: seq<Event>, sec: int)
    requires forall e :: e in log ==> e.sec != sec
    ensures BytesIn(log, sec) == 0
  {
    if log != [] {
      NothingLogged(log[..|log| - 1], sec);
    }
  }

  /** Going on from second `cur` to `next`: the slots of the seconds in between are cleared. */
  lemma RingMovesOn(ring: seq<Uint32>, next: seq<Uint32>, log: seq<Event>, cur: nat, to: nat)
    requires RingShows(ring, log, cur) && cur <= to && |next| == RING
    requires forall k :: 0 <= k < RING ==> next[k] == if SecondOf(to, k) > cur then 0 else ring[k]
    ensures RingShows(next, log, to)
  {
    forall k | 0 <= k < RING
      ensures next[k] == Slot(log, SecondOf(to, k))
    {
      if SecondOf(to, k) > cur {
        NothingLogged(log, SecondOf(to, k));
      } else {
        assert SecondOf(to, k) == SecondOf(cur, k);
      }
    }
  }

  lemma RingIsClear(ring: seq<Uint32>, cur: nat)
    requires |ring| == RING && forall k :: 0 <= k < RING ==> ring[k] == 0
    ensures RingShows(ring, [], cur)
  {
  }

  lemma RingTakes(ring: seq<Uint32>, log: seq<Event>, cur: nat, bytes: Uint32)
    requires RingShows(ring, log, cur)
    ensures RingShows(ring[cur % RING := (ring[cur % RING] + bytes) % TWO_32], log + [Event(cur, bytes)], cur)
  {
    var log' := log + [Event(cur, bytes)];
    assert log'[..|log|] == log;
    forall k | 0 <= k < RING
      ensures Slot(log', SecondOf(cur, k)) == if k == cur % RING then (ring[k] + bytes) % TWO_32 else ring[k]
    {
      SecondOfSlot(cur, k, cur);
    }
  }

  /** Column by column or row by row: as long as no second overflows its slot, the window is the log. */
  lemma {:induction false} SlotsAreLogged(log: seq<Event>, lo: int, hi: int)
    requires forall s :: lo <= s <= hi ==> BytesIn(log, s) < TWO_32
    ensures Slots(log, lo, hi) == LoggedBetween(log, lo, hi)
    decreases hi - lo + 1
  {
    if lo <= hi {
      SlotsAreLogged(log, lo, hi - 1);
      LoggedSplits(log, lo, hi);
    } else {
      LoggedEmpty(log, lo, hi);
    }
  }

  lemma {:induction false} LoggedSplits(log: seq<Event>, lo: int, hi: int)
    requires lo <= hi
    ensures LoggedBetween(log, lo, hi) == LoggedBetween(log, lo, hi - 1) + BytesIn(log, hi)
  {
    if log != [] {
      LoggedSplits(log[..|log| - 1], lo, hi);
    }
  }

  lemma {:induction false} LoggedEmpty(log: seq<Event>, lo: int, hi: int)
    requires hi < lo
    ensures LoggedBetween(log, lo, hi) == 0
  {
    if log != [] {
      LoggedEmpty(log[..|log| - 1], lo, hi);
    }
  }

  // ---------------------------------------------------------------------------------------
  // What a query answers

  /**
   The bytes a query over `d` seconds counts at second `cur`. The running second is left out,
   except that sixty seconds back is the slot of the running second. A window that would reach
   back before the clock started counts nothing, and at second zero the subtraction wraps.
   */
  ghost function Window(log: seq<Event>, cur: nat, d: nat): nat {
    if cur == 0 then (if d >= 16 then Slot(log, 0) else 0)
    else if cur <= d then 0
    else if d < RING then Slots(log, cur - d, cur - 1)
    else Slots(log, cur - 59, cur)
  }

  /** Nothing was submitted before second `cur`. */
  ghost predicate QuietBefore(log: seq<Event>, cur: int) {
    forall e :: e in log && e.sec < cur ==> e.bytes == 0
  }

  /** With the running second left out, a query is answered right away from the log, or with nothing. */
  predicate Answerable(inZero: nat, quiet: bool, cur: nat, d: nat) {
    if cur == 0 then d < 16 || inZero == 0 else d < cur || quiet
  }

  lemma {:induction false} LoggedNothingIff(log: seq<Event>, lo: int, hi: int)
    ensures LoggedBetween(log, lo, hi) == 0 <==> forall e :: e in log && lo <= e.sec <= hi ==> e.bytes == 0
  {
    if log != [] {
      var rest, last := log[..|log| - 1], log[|log| - 1];
      LoggedNothingIff(rest, lo, hi);
      assert log == rest + [last];
      assert last in log && forall e :: e in log <==> e in rest || e == last;
    }
  }

  /**
   A window shorter than the ring counts exactly the events of the `d` seconds before the running
   one, if and only if the clock has run for longer than `d` seconds or there was nothing to
   count; in second zero, if the wrapped window misses the running second or that is empty too.
   So does the window of sixty in the first minute; after that it counts the running second and
   the fifty-nine before it.
   */
  lemma WindowIsLogged(log: seq<Event>, cur: nat, d: nat)
    requires 1 <= d <= RING
    requires forall s :: BytesIn(log, s) < TWO_32
    ensures d < RING || cur <= RING ==>
              (Window(log, cur, d) == LoggedBetween(log, cur - d, cur - 1) <==>
               Answerable(BytesIn(log, 0), QuietBefore(log, cur), cur, d))
    ensures d == RING < cur ==> Window(log, cur, d) == LoggedBetween(log, cur - 59, cur)
  {
    if cur <= d {
      LoggedNothingIff(log, cur - d, cur - 1);
    } else if d < RING {
      SlotsAreLogged(log, cur - d, cur - 1);
    } else {
      SlotsAreLogged(log, cur - 59, cur);
    }
  }

  /** The one-minute window is the sixty seconds before the running one only when both ends carried the same load. */
  lemma MinuteWindowIff(log: seq<Event>, cur: nat)
    requires cur > RING
    requires forall s :: BytesIn(log, s) < TWO_32
    ensures Window(log, cur, RING) == LoggedBetween(log, cur - 60, cur - 1) <==> BytesIn(log, cur - 60) == BytesIn(log, cur)
  {
    WindowIsLogged(log, cur, RING);
    SlotsAreLogged(log, cur - 60, cur - 1);
    SlotsAreLogged(log, cur - 59, cur);
    SlotsFromLow(log, cur - 60, cur - 1);
  }

  function Elapsed(startTime: nat, tick: nat): (ms: nat)
    ensures ms > 0
  {
    var ms := (tick - startTime) % TWO_32;
    if ms == 0 then 1 else ms
  }

  function Speed(bytes: nat, d: nat, elapsed: nat): Uint32
    requires d > 0 && elapsed > 0
  {
    (if elapsed > d * 1000 then bytes / d else 1000 * bytes / elapsed) % TWO_32
  }

  lemma RateFits(a: nat, b: nat)
    requires b > 0 && a < TWO_32 * b
    ensures Floor(a / b % TWO_32, a, b)
  {
    hide Floor;
    Division(a, b);
    FloorBelow(a / b, a, b, TWO_32);
  }

  /**
   Bytes per second. A meter that has run for no longer than the window divides by the time it has
   run, an older one by the window; the answer is rounded down, and is right if it has room in 32
   bits.
   */
  lemma SpeedIsRate(bytes: nat, d: nat, elapsed: nat)
    requires d > 0 && elapsed > 0
    ensures elapsed <= 1000 * d && 1000 * bytes < TWO_32 * elapsed ==> Floor(Speed(bytes, d, elapsed), 1000 * bytes, elapsed)
    ensures elapsed > 1000 * d && bytes < TWO_32 * d ==> Floor(Speed(bytes, d, elapsed), bytes, d)
  {
    hide Floor;
    var a := 1000 * bytes;
    if elapsed <= d * 1000 {
      if a < TWO_32 * elapsed {
        RateFits(a, elapsed);
      }
    } else if bytes < TWO_32 * d {
      RateFits(bytes, d);
    }
  }

  /** The milliseconds since the start, at least one. */
  lemma ElapsedSinceStart(startTime: nat, tick: nat)
    requires startTime <= tick < startTime + TWO_32
    ensures Elapsed(startTime, tick) == if tick == startTime then 1 else tick - startTime
  {
  }

  /** The ring's own sum over seconds `lo` to `hi`, counted down from `hi`. */
  ghost function RingSum(ring: seq<Uint32>, lo: int, hi: int): nat
    requires |ring| == RING
    decreases hi - lo + 1
  {
    if hi < lo then 0 else ring[lo % RING] + RingSum(ring, lo + 1, hi)
  }

  lemma {:induction false} RingSumIsSlots(ring: seq<Uint32>, log: seq<Event>, cur: nat, lo: int, hi: int)
    requires RingShows(ring, log, cur) && cur - RING < lo && hi <= cur
    ensures RingSum(ring, lo, hi) == Slots(log, lo, hi)
    decreases hi - lo + 1
  {
    if lo <= hi {
      RingSumIsSlots(ring, log, cur, lo + 1, hi);
      RingSlot(ring, log, cur, lo);
      SlotsFromLow(log, lo, hi);
    }
  }

  lemma {:induction false} SlotsFromLow(log: seq<Event>, lo: int, hi: int)
    requires lo <= hi
    ensures Slots(log, lo, hi) == Slot(log, lo) + Slots(log, lo + 1, hi)
    decreases hi - lo
  {
    if lo < hi {
      SlotsFromLow(log, lo, hi - 1);
    }
  }

  lemma RingAtSecondZero(ring: seq<Uint32>, log: seq<Event>, d: nat)
    requires RingShows(ring, log, 0) && 1 <= d <= RING
    ensures RingSum(ring, TWO_32 - d, TWO_32 - 1) == Window(log, 0, d)
  {
    forall k | 0 < k < RING
      ensures ring[k] == 0
    {
      NothingLogged(log, SecondOf(0, k));
    }
    ZeroSums(ring, TWO_32 - d, d);
  }

  /** Of the sixty seconds before the 32-bit wrap, the sixteenth from the end is slot zero. */
  lemma {:induction false} ZeroSums(ring: seq<Uint32>, lo: int, d: nat)
    requires |ring| == RING && 1 <= d <= RING && lo == TWO_32 - d
    requires forall k :: 0 < k < RING ==> ring[k] == 0
    ensures RingSum(ring, lo, TWO_32 - 1) == if d >= 16 then ring[0] else 0
    decreases d
  {
    if d > 1 {
      ZeroSums(ring, lo + 1, d - 1);
    }
  }

  lemma RingSumIsWindow(ring: seq<Uint32>, log: seq<Event>, cur: nat, d: nat)
    requires RingShows(ring, log, cur) && d < cur && 1 <= d <= RING
    ensures RingSum(ring, cur - d, cur - 1) == Window(log, cur, d)
  {
    hide Slot, RingSum, Slots;
    if d < RING {
      RingSumIsSlots(ring, log, cur, cur - d, cur - 1);
    } else {
      RingSumIsSlots(ring, log, cur, cur - 59, cur - 1);
      RingSlot(ring, log, cur, cur);
      RingSumFirst(ring, cur - 60, cur - 1);
      SlotsLast(log, cur - 59, cur);
    }
  }

  /** Sixty seconds back is the slot of the second after the last. */
  lemma RingSumFirst(ring: seq<Uint32>, lo: int, hi: int)
    requires |ring| == RING && lo <= hi
    ensures RingSum(ring, lo, hi) == ring[(lo + 60) % RING] + RingSum(ring, lo + 1, hi)
  {
    assert (lo + 60) % RING == lo % RING;
  }

  lemma SlotsLast(log: seq<Event>, lo: int, hi: int)
    requires lo <= hi
    ensures Slots(log, lo, hi) == Slots(log, lo, hi - 1) + Slot(log, hi)
  {
    hide Slot;
  }

  // ---------------------------------------------------------------------------------------
  // Whole runs, on the log alone

  datatype Call = Submit(bytes: Uint32, now: nat) | Query(d: nat, now: nat)

  /** Calls in the order of time, before the counter of seconds wraps around. */
  ghost predicate InTime(start: nat, calls: seq<Call>) {
    && start / 1000 < TWO_32
    && (forall k :: 0 <= k < |calls| ==> start <= calls[k].now && calls[k].now / 1000 < TWO_32)
    && (forall j, k :: 0 <= j < k < |calls| ==> calls[j].now <= calls[k].now)
    && (forall k :: 0 <= k < |calls| && calls[k].Query? ==> 1 <= calls[k].d <= RING)
  }

  function Logged(call: Call): seq<Event> {
    if call.Submit? then [Event(call.now / 1000, call.bytes)] else []
  }

  /** Everything that was submitted, query or no query in between. */
  ghost function Submitted(calls: seq<Call>): seq<Event> {
    if calls == [] then [] else Submitted(calls[..|calls| - 1]) + Logged(calls[|calls| - 1])
  }

  /** What a meter that remembers the whole log answers to one call. */
  ghost function Answer(start: nat, log: seq<Event>, call: Call): seq<Uint32>
    requires call.Query? ==> call.d > 0
  {
    match call
    case Submit(_, _) => []
    case Query(d, now) => [Speed(Window(log, now / 1000, d), d, Elapsed(start, now))]
  }

  ghost function Answers(start: nat, calls: seq<Call>): seq<Uint32>
    requires InTime(start, calls)
  {
    if calls == [] then []
    else
      var before, last := calls[..|calls| - 1], calls[|calls| - 1];
      Answers(start, before) + Answer(start, Submitted(before), last)
  }

  /** How many of the calls are queries. */
  ghost function Queries(calls: seq<Call>): nat {
    if calls == [] then 0 else Queries(calls[..|calls| - 1]) + if calls[|calls| - 1].Query? then 1 else 0
  }

  /** The answers of a run are those of its beginning, and more; there is one for every query. */
  lemma {:induction false} AnswersGrow(start: nat, calls: seq<Call>, k: nat)
    requires InTime(start, calls) && k <= |calls|
    ensures InTime(start, calls[..k]) && |Answers(start, calls)| == Queries(calls)
    ensures Answers(start, calls[..k]) <= Answers(start, calls)
    decreases |calls|
  {
    hide Speed, Window, Elapsed;
    if k == |calls| {
      assert calls[..k] == calls;
      if calls != [] {
        AnswersGrow(start, calls[..k - 1], k - 1);
      }
    } else {
      AnswersGrow(start, calls[..|calls| - 1], k);
      assert calls[..|calls| - 1][..k] == calls[..k];
    }
  }

  /** The bytes that a query over `d` seconds in second `sec` should and does count. */
  ghost function Counted(log: seq<Event>, sec: nat, d: nat): nat {
    if d == RING < sec then LoggedBetween(log, sec - 59, sec) else LoggedBetween(log, sec - d, sec - 1)
  }

  /**
   Every query of every run in order of time: the answer is the rate, rounded down, at which the
   events of the window were submitted.
   */
  lemma AnswerIsRate(start: nat, calls: seq<Call>, k: nat)
    requires InTime(start, calls) && k < |calls| && calls[k].Query?
    requires var log, sec := Submitted(calls[..k]), calls[k].now / 1000;
             && (forall s :: BytesIn(log, s) < TWO_32)
             && (calls[k].d == RING < sec || Answerable(BytesIn(log, 0), QuietBefore(log, sec), sec, calls[k].d))
    requires calls[k].now - start < TWO_32
    ensures Queries(calls[..k]) < |Answers(start, calls)|
    ensures var d, now := calls[k].d, calls[k].now;
            var answer, bytes := Answers(start, calls)[Queries(calls[..k])], Counted(Submitted(calls[..k]), now / 1000, d);
            var elapsed := if now == start then 1 else now - start;
            && (elapsed <= 1000 * d && 1000 * bytes < TWO_32 * elapsed ==> Floor(answer, 1000 * bytes, elapsed))
            && (elapsed > 1000 * d && bytes < TWO_32 * d ==> Floor(answer, bytes, d))
  {
    hide Floor, Speed, Elapsed, Window, LoggedBetween, Answerable, QuietBefore, InTime, Submitted, Answers, Queries;
    var d, now := calls[k].d, calls[k].now;
    var log := Submitted(calls[..k]);
    QueryInTime(start, calls, k);
    AnswerAt(start, calls, k);
    WindowIsLogged(log, now / 1000, d);
    ElapsedSinceStart(start, now);
    SpeedIsRate(Window(log, now / 1000, d), d, Elapsed(start, now));
  }

  lemma AnswerAt(start: nat, calls: seq<Call>, k: nat)
    requires InTime(start, calls) && k < |calls| && calls[k].Query?
    ensures calls[k].d > 0 && Queries(calls[..k]) < |Answers(start, calls)|
    ensures Answers(start, calls)[Queries(calls[..k])] ==
            Speed(Window(Submitted(calls[..k]), calls[k].now / 1000, calls[k].d), calls[k].d, Elapsed(start, calls[k].now))
  {
    hide Speed, Elapsed, Window, InTime, Submitted, Queries, Answers;
    QueryInTime(start, calls, k);
    NextInTime(start, calls, k);
    AnswersGrow(start, calls, k + 1);
    AnswersGrow(start, calls[..k], k);
  }

  lemma QueryInTime(start: nat, calls: seq<Call>, k: nat)
    requires InTime(start, calls) && k < |calls| && calls[k].Query?
    ensures 1 <= calls[k].d <= RING && start <= calls[k].now && InTime(start, calls[..k])
  {
  }

  lemma MinuteWindowMisses(e: Event)
    requires e.sec == 1
    ensures Window([e], 61, 60) == 0 && LoggedBetween([e], 1, 60) == e.bytes
  {
    hide Window;
    LoggedOfOne(e, 1, 60);
    LoggedOfOne(e, 2, 61);
    forall s
      ensures BytesIn([e], s) < TWO_32
    {
      BytesOfOne(e, s);
    }
    WindowIsLogged([e], 61, 60);
  }

  /** A run in which the answer over a minute misses everything that was submitted in that minute. */
  lemma MinuteIsMissed()
    ensures var calls := [Submit(600, 1000), Query(60, 61000)];
            && InTime(0, calls) && Answers(0, calls) == [0]
            && LoggedBetween(Submitted(calls), 1, 60) == 600 && Speed(600, 60, Elapsed(0, 61000)) == 10
  {
    hide Window, LoggedBetween, Speed, Elapsed, Answers, Submitted;
    var submit, query := Submit(600, 1000), Query(60, 61000);
    MinuteWindowMisses(Event(1, 600));
    MinuteSpeeds();
    TwoCalls(0, submit, query);
    var log := [Event(1, 600)];
    assert Logged(submit) == log && Logged(query) == [] && log + [] == log;
    assert Answer(0, log, query) == [0] && Answer(0, [], submit) == [] && [] + [0] == [0];
  }

  lemma TwoCalls(start: nat, a: Call, b: Call)
    requires InTime(start, [a, b])
    ensures Submitted([a, b]) == Logged(a) + Logged(b)
    ensures (a.Query? ==> a.d > 0) && (b.Query? ==> b.d > 0)
    ensures Answers(start, [a, b]) == Answer(start, [], a) + Answer(start, Logged(a), b)
  {
    hide Answer, Logged;
    var calls := [a, b];
    assert calls[0] == a && calls[1] == b;
    assert calls[..1] == [a] && [a][..0] == [];
    assert Submitted([]) == [] && Answers(start, []) == [];
    assert Submitted([a]) == [] + Logged(a) == Logged(a);
    assert Answers(start, [a]) == [] + Answer(start, [], a) == Answer(start, [], a);
    assert Submitted(calls) == Submitted(calls[..1]) + Logged(b);
  }

  lemma MinuteSpeeds()
    ensures Speed(0, 60, Elapsed(0, 61000)) == 0 && Speed(600, 60, Elapsed(0, 61000)) == 10
  {
  }

  lemma LoggedOfOne(e: Event, lo: int, hi: int)
    ensures LoggedBetween([e], lo, hi) == if lo <= e.sec <= hi then e.bytes else 0
  {
    assert [e][..0] == [];
  }

  lemma BytesOfOne(e: Event, sec: int)
    ensures BytesIn([e], sec) == if e.sec == sec then e.bytes else 0
  {
    assert [e][..0] == [];
  }

  lemma StartsInTime(start: nat, calls: seq<Call>)
    requires InTime(start, calls)
    ensures start / 1000 < TWO_32 && InTime(start, calls[..0])
  {
  }

  lemma NextInTime(start: nat, calls: seq<Call>, k: nat)
    requires InTime(start, calls) && k < |calls|
    ensures InTime(start, calls[..k]) && InTime(start, calls[..k + 1]) && (calls[k].Query? ==> 1 <= calls[k].d <= RING)
    ensures (if k == 0 then start else calls[k - 1].now) / 1000 <= calls[k].now / 1000 < TWO_32
    ensures Submitted(calls[..k + 1]) == Submitted(calls[..k]) + Logged(calls[k])
    ensures Answers(start, calls[..k + 1]) == Answers(start, calls[..k]) + Answer(start, Submitted(calls[..k]), calls[k])
  {
    hide Speed, Window, Elapsed;
    assert calls[..k + 1][..k] == calls[..k];
  }

  // ---------------------------------------------------------------------------------------
  // The object

  class ByteSpeedMeter {
    var startTime: nat
    var totalBytes: Uint32
    const history: array<Uint32>
    var currentSec: Uint32
    var isRunning: bool

    /** What the ring remembers, as a log. */
    ghost var log: seq<Event>

    ghost predicate Valid()
      reads this, history
    {
      history.Length == RING && RingShows(history[..], log, currentSec)
    }

    constructor ()
      ensures Valid() && !isRunning && log == [] && currentSec == 0 && totalBytes == 0 && fresh(history)
    {
      isRunning := false;
      startTime, totalBytes, currentSec, log := 0, 0, 0, [];
      history := new Uint32[RING](_ => 0);
    }

    method Clear()
      requires history.Length == RING
      modifies this, history
      ensures Valid() && isRunning == old(isRunning) && log == []
      ensures startTime == 0 && totalBytes == 0 && currentSec == 0
    {
      startTime, totalBytes, currentSec, log := 0, 0, 0, [];
      ClearHistory();
    }

    method ClearHistory()
      requires history.Length == RING
      modifies history
      ensures forall k :: 0 <= k < RING ==> history[k] == 0
    {
      for k := 0 to RING
        invariant forall j :: 0 <= j < k ==> history[j] == 0
      {
        history[k] := 0;
      }
    }

    method Start(now: nat)
      requires Valid()
      modifies this, history
      ensures Valid() && isRunning
      ensures old(isRunning) ==> log == old(log) && currentSec == old(currentSec) && startTime == old(startTime)
      ensures !old(isRunning) ==> log == [] && currentSec == now / 1000 % TWO_32 && startTime == now
    {
      if isRunning {
        return;
      }
      Clear();
      startTime := now;
      CheckTickCount(now);
      isRunning := true;
    }

    method Stop()
      requires Valid()
      modifies this, history
      ensures Valid() && !isRunning
      ensures old(isRunning) ==> log == []
    {
      if isRunning {
        Clear();
        isRunning := false;
      }
    }

    /** A clock that steps back makes the ring forget; one that wraps around within a minute is not followed. */
    predicate Follows(now: nat)
      reads this
    {
      currentSec - now / 1000 % TWO_32 <= TWO_32 - RING
    }

    method CheckTickCount(now: nat)
      requires Valid() && Follows(now)
      modifies this, history
      ensures Valid() && currentSec == now / 1000 % TWO_32
      ensures log == if currentSec < old(currentSec) then [] else old(log)
      ensures startTime == old(startTime) && totalBytes == old(totalBytes) && isRunning == old(isRunning)
    {
      var currSec := now / 1000 % TWO_32;
      if currSec != currentSec {
        UpdateTickCount(currSec);
      }
    }

    method UpdateTickCount(currSec: Uint32)
      requires Valid() && currSec != currentSec && currentSec - currSec <= TWO_32 - RING
      modifies this, history
      ensures Valid() && currentSec == currSec
      ensures log == if currSec < old(currentSec) then [] else old(log)
      ensures startTime == old(startTime) && totalBytes == old(totalBytes) && isRunning == old(isRunning)
    {
      ghost var ring := history[..];
      if (currSec - currentSec) % TWO_32 >= RING {
        ClearHistory();
      } else {
        ClearSlots(currentSec, currSec);
      }
      if currSec < currentSec {
        RingIsClear(history[..], currSec);
        log := [];
      } else {
        RingMovesOn(ring, history[..], log, currentSec, currSec);
      }
      currentSec := currSec;
    }

    /** Zeroes the slots of the seconds after `from` up to `to`. */
    method ClearSlots(from: nat, to: nat)
      requires history.Length == RING && from < to < from + RING
      modifies history
      ensures forall k :: 0 <= k < RING ==> history[k] == if SecondOf(to, k) > from then 0 else old(history[k])
    {
      var i := to;
      while i > from
        invariant from <= i <= to
        invariant forall k :: 0 <= k < RING ==> history[k] == if SecondOf(to, k) > i then 0 else old(history[k])
      {
        forall k | 0 <= k < RING
          ensures SecondOf(to, k) == i <==> k == i % RING
        {
          SecondOfSlot(to, k, i);
        }
        history[i % RING] := 0;
        i := i - 1;
      }
    }

    method SubmitBytes(bytes: Uint32, now: nat)
      requires Valid() && Follows(now)
      modifies this, history
      ensures Valid() && currentSec == now / 1000 % TWO_32
      ensures log == (if currentSec < old(currentSec) then [] else old(log)) + [Event(currentSec, bytes)]
      ensures totalBytes == (old(totalBytes) + bytes) % TWO_32
      ensures startTime == old(startTime) && isRunning == old(isRunning)
    {
      CheckTickCount(now);
      totalBytes := (totalBytes + bytes) % TWO_32;
      RingTakes(history[..], log, currentSec, bytes);
      history[currentSec % RING] := (history[currentSec % RING] + bytes) % TWO_32;
      log := log + [Event(currentSec, bytes)];
    }

    /** The answer depends on the log alone. */
    method CalcSpeedInDuration(d: nat, now: nat) returns (speed: Uint32)
      requires Valid() && Follows(now) && 1 <= d <= RING
      modifies this, history
      ensures Valid() && currentSec == now / 1000 % TWO_32
      ensures log == if currentSec < old(currentSec) then [] else old(log)
      ensures speed == Speed(Window(log, currentSec, d), d, Elapsed(startTime, now))
      ensures startTime == old(startTime) && totalBytes == old(totalBytes) && isRunning == old(isRunning)
    {
      CheckTickCount(now);
      var bytes := SumBack(history[..], currentSec, d);
      if currentSec == 0 {
        RingAtSecondZero(history[..], log, d);
      } else if d < currentSec {
        RingSumIsWindow(history[..], log, currentSec, d);
      }
      var elapsed := Elapsed(startTime, now);
      speed := (if elapsed > d * 1000 then bytes / d else 1000 * bytes / elapsed) % TWO_32;
    }

    method Make(call: Call) returns (answer: seq<Uint32>)
      requires Valid() && currentSec <= call.now / 1000 < TWO_32 && (call.Query? ==> 1 <= call.d <= RING)
      modifies this, history
      ensures Valid() && startTime == old(startTime) && currentSec == call.now / 1000
      ensures log == old(log) + Logged(call)
      ensures answer == Answer(startTime, old(log), call)
    {
      hide Speed, Window, Elapsed, RingShows;
      match call
      case Submit(bytes, now) =>
        SubmitBytes(bytes, now);
        answer := [];
      case Query(d, now) =>
        var speed := CalcSpeedInDuration(d, now);
        answer := [speed];
    }

    /** A whole run after `Start`: the ring forgets nothing that any query could ask for. */
    method Drive(start: nat, calls: seq<Call>) returns (answers: seq<Uint32>)
      requires Valid() && !isRunning && InTime(start, calls)
      modifies this, history
      ensures Valid() && log == Submitted(calls)
      ensures answers == Answers(start, calls)
    {
      hide RingShows, Answer, Logged, InTime;
      StartsInTime(start, calls);
      Start(start);
      answers := [];
      for k := 0 to |calls|
        invariant Valid() && startTime == start && log == Submitted(calls[..k])
        invariant currentSec == (if k == 0 then start else calls[k - 1].now) / 1000
        invariant InTime(start, calls[..k]) && answers == Answers(start, calls[..k])
      {
        NextInTime(start, calls, k);
        var answer := Make(calls[k]);
        answers := answers + answer;
      }
      assert calls[..|calls|] == calls;
    }

    /** The summing loop, in 32-bit arithmetic. */
    static method SumBack(ring: seq<Uint32>, cur: Uint32, d: nat) returns (bytes: nat)
      requires |ring| == RING && 1 <= d <= RING
      ensures bytes == if 1 <= cur <= d then 0
                       else if cur == 0 then RingSum(ring, TWO_32 - d, TWO_32 - 1)
                       else RingSum(ring, cur - d, cur - 1)
    {
      bytes := 0;
      var last := (cur - 1) % TWO_32;
      var stop := (last - d) % TWO_32;
      assert last == if cur == 0 then TWO_32 - 1 else cur - 1;
      assert stop == if cur == 0 then TWO_32 - 1 - d else if d < cur then cur - 1 - d else cur - 1 - d + TWO_32;
      var i := last;
      while i > stop
        invariant if stop > last then i == last && bytes == 0
                  else stop <= i <= last && bytes == RingSum(ring, i + 1, last)
        decreases i - stop
      {
        bytes := bytes + ring[i % RING];
        i := i - 1;
      }
    }
  }
}
