/** Reports wait in a short queue and are posted one at a time to one of several servers. */
module StatisticsReportSenders {

  const MAX_ATTEMPTS: nat := 5
  const MAX_PENDING: nat := 10

  datatype Report = Report(id: nat, attempts: nat)

  datatype Fate = Delivered(id: nat) | GivenUp(id: nat)

  /**
   The sender, and what an observer knows of it: the reports it accepted in order of arrival,
   what became of those that left the queue, and whether the post in flight has been answered.
   */
  datatype Sender = Sender(servers: seq<string>, index: int, queue: seq<Report>, posting: bool, success: map<string, nat>,
                           accepted: seq<nat>, gone: seq<Fate>, waiting: bool)

  /** `compresses`: the report's data fits; `sorted`: what sorting the servers would give. */
  datatype Event =
    | AddReport(id: nat, compresses: bool)
    | Timer(compresses: bool)
    | PostResult(ok: bool, sorted: seq<string>)

  function New(servers: seq<string>): Sender {
    Sender(servers, -1, [], false, map x | x in servers :: 0, [], [], false)
  }

  predicate Valid(r: Report) {
    r.attempts < MAX_ATTEMPTS
  }

  /** Reports at the front that have been tried too often are dropped. */
  function SkipInvalid(s: Sender): (t: Sender)
    ensures t.queue != [] ==> Valid(t.queue[0])
    decreases |s.queue|
  {
    if s.queue == [] || Valid(s.queue[0]) then s
    else SkipInvalid(s.(queue := s.queue[1..], gone := s.gone + [GivenUp(s.queue[0].id)]))
  }

  function SendIfAppropriate(s: Sender, compresses: bool): Sender {
    if s.posting || s.servers == [] then s
    else
      var t := SkipInvalid(s);
      if t.queue == [] then t
      else
        var front := t.queue[0].(attempts := t.queue[0].attempts + 1);
        var u := t.(index := if t.index < 0 then 0 else t.index);
        if compresses then u.(queue := [front] + t.queue[1..], posting := true, waiting := true)
        else u.(queue := t.queue[1..], gone := t.gone + [GivenUp(front.id)])
  }

  function Add(s: Sender, id: nat, compresses: bool): Sender {
    if |s.queue| >= MAX_PENDING then s
    else SendIfAppropriate(s.(queue := s.queue + [Report(id, 0)], accepted := s.accepted + [id]), compresses)
  }

  function Answer(s: Sender, ok: bool, sorted: seq<string>): Sender
    requires s.posting && s.queue != [] && 0 <= s.index < |s.servers|
  {
    if ok then
      var server := s.servers[s.index];
      s.(success := s.success[server := (if server in s.success then s.success[server] else 0) + 1],
         posting := false, waiting := false, queue := s.queue[1..], gone := s.gone + [Delivered(s.queue[0].id)])
    else if s.index + 1 < |s.servers| then s.(index := s.index + 1, waiting := false)
    else s.(servers := if |s.servers| > 1 then sorted else s.servers, index := 0, waiting := false)
  }

  // ---------------------------------------------------------------------------------------
  // What every run keeps

  /** The identifiers of a list, in its order. */
  function IdsOf<T>(list: seq<T>, id: T -> nat): (ids: seq<nat>)
    ensures |ids| == |list| && forall k :: 0 <= k < |ids| ==> ids[k] == id(list[k])
  {
    seq(|list|, k requires 0 <= k < |list| => id(list[k]))
  }

  function Ids(queue: seq<Report>): seq<nat> {
    IdsOf(queue, (r: Report) => r.id)
  }

  function Names(gone: seq<Fate>): seq<nat> {
    IdsOf(gone, (f: Fate) => f.id)
  }

  /**
   At most one post is in flight and it is the front of the queue; only the front was ever tried,
   and only once; the queue is short; and reports leave it in the order they came, each once.
   */
  ghost predicate Inv(s: Sender, servers: seq<string>) {
    && multiset(s.servers) == multiset(servers)
    && |s.queue| <= MAX_PENDING
    && (s.posting ==> s.queue != [] && 0 <= s.index < |s.servers|)
    && (s.index == -1 || 0 <= s.index < |s.servers|)
    && (forall k :: 0 <= k < |s.queue| ==> s.queue[k].attempts == if k == 0 && s.posting then 1 else 0)
    && s.accepted == Names(s.gone) + Ids(s.queue)
  }

  lemma ShiftsOut(accepted: seq<nat>, gone: seq<Fate>, queue: seq<Report>, fate: Fate)
    requires queue != [] && fate.id == queue[0].id && accepted == Names(gone) + Ids(queue)
    ensures accepted == Names(gone + [fate]) + Ids(queue[1..])
  {
  }

  lemma SendKeepsInv(s: Sender, servers: seq<string>, compresses: bool)
    requires Inv(s, servers)
    ensures Inv(SendIfAppropriate(s, compresses), servers)
  {
    if !s.posting && s.servers != [] && s.queue != [] {
      assert SkipInvalid(s) == s;
      var front := s.queue[0].(attempts := 1);
      ShiftsOut(s.accepted, s.gone, s.queue, GivenUp(front.id));
      assert Ids([front] + s.queue[1..]) == Ids(s.queue);
    }
  }

  lemma AddKeepsInv(s: Sender, servers: seq<string>, id: nat, compresses: bool)
    requires Inv(s, servers)
    ensures Inv(Add(s, id, compresses), servers)
  {
    if |s.queue| < MAX_PENDING {
      var t := s.(queue := s.queue + [Report(id, 0)], accepted := s.accepted + [id]);
      assert t.accepted == Names(t.gone) + Ids(t.queue);
      SendKeepsInv(t, servers, compresses);
    }
  }

  ghost predicate SortedServers(s: Sender, sorted: seq<string>) {
    && multiset(sorted) == multiset(s.servers)
    && forall i, j :: 0 <= i < j < |sorted| && sorted[i] in s.success && sorted[j] in s.success ==>
         s.success[sorted[i]] >= s.success[sorted[j]]
  }

  lemma AnswerKeepsInv(s: Sender, servers: seq<string>, ok: bool, sorted: seq<string>)
    requires Inv(s, servers) && s.posting && SortedServers(s, sorted)
    ensures Inv(Answer(s, ok, sorted), servers)
  {
    var t := Answer(s, ok, sorted);
    assert t.accepted == Names(t.gone) + Ids(t.queue);
    assert |multiset(sorted)| == |sorted| && |multiset(s.servers)| == |s.servers|;
  }

  ghost predicate Enabled(s: Sender, e: Event) {
    e.PostResult? ==> s.posting && s.queue != [] && 0 <= s.index < |s.servers| && SortedServers(s, e.sorted)
  }

  ghost function Step(s: Sender, e: Event): Sender
    requires Enabled(s, e)
  {
    match e
    case AddReport(id, compresses) => Add(s, id, compresses)
    case Timer(compresses) => SendIfAppropriate(s, compresses)
    case PostResult(ok, sorted) => Answer(s, ok, sorted)
  }

  ghost predicate Possible(s: Sender, es: seq<Event>)
    decreases |es|
  {
    es == [] || (Enabled(s, es[0]) && Possible(Step(s, es[0]), es[1..]))
  }

  ghost function Run(s: Sender, es: seq<Event>): Sender
    requires Possible(s, es)
    decreases |es|
  {
    if es == [] then s else Run(Step(s, es[0]), es[1..])
  }

  lemma {:induction false} RunKeepsInv(s: Sender, servers: seq<string>, es: seq<Event>)
    requires Inv(s, servers) && Possible(s, es)
    ensures Inv(Run(s, es), servers)
    decreases |es|
  {
    hide Inv;
    if es != [] {
      match es[0] {
        case AddReport(id, compresses) => AddKeepsInv(s, servers, id, compresses);
        case Timer(compresses) => SendKeepsInv(s, servers, compresses);
        case PostResult(ok, sorted) => AnswerKeepsInv(s, servers, ok, sorted);
      }
      RunKeepsInv(Step(s, es[0]), servers, es[1..]);
    }
  }

  /** In any run, however often a post is answered: what became of the reports follows the order of arrival. */
  lemma ReportsLeaveInOrder(servers: seq<string>, es: seq<Event>)
    requires Possible(New(servers), es)
    ensures var t := Run(New(servers), es);
            && Names(t.gone) <= t.accepted && Ids(t.queue) == t.accepted[|t.gone|..]
            && |t.queue| <= MAX_PENDING && multiset(t.servers) == multiset(servers)
            && (forall r :: r in t.queue ==> r.attempts <= 1)
  {
    RunKeepsInv(New(servers), servers, es);
  }

  // ---------------------------------------------------------------------------------------
  // What each step is for

  /** A sender that has nothing in flight posts the front, or gives it up when it does not compress. */
  lemma TimerPosts(s: Sender, servers: seq<string>, compresses: bool)
    requires Inv(s, servers)
    ensures var t := Step(s, Timer(compresses));
            if s.posting || s.servers == [] || s.queue == [] then t == s
            else if compresses then
              && t.posting && t.waiting && t.queue == [s.queue[0].(attempts := 1)] + s.queue[1..] && t.gone == s.gone
              && t.index == (if s.index < 0 then 0 else s.index) && t.success == s.success && t.servers == s.servers
            else
              && !t.posting && t.queue == s.queue[1..] && t.gone == s.gone + [GivenUp(s.queue[0].id)]
              && t.success == s.success && t.servers == s.servers
  {
  }

  /** A report is accepted exactly when fewer than ten are pending, and then posted if nothing is in the way. */
  lemma AddAccepts(s: Sender, servers: seq<string>, id: nat, compresses: bool)
    requires Inv(s, servers)
    ensures var t := Step(s, AddReport(id, compresses));
            if |s.queue| >= 10 then t == s
            else
              && t.accepted == s.accepted + [id] && t.success == s.success && t.servers == s.servers
              && t == Step(s.(queue := s.queue + [Report(id, 0)], accepted := s.accepted + [id]), Timer(compresses))
  {
    SkipLeavesRest(s.(queue := s.queue + [Report(id, 0)], accepted := s.accepted + [id]));
  }

  /** A report that has been tried five times is given up before anything else; one with an attempt left is not. */
  lemma FiveAttempts(s: Sender, rest: seq<Report>, id: nat)
    requires s.queue == [Report(id, 5)] + rest && rest != [] && rest[0].attempts < 5
    ensures SkipInvalid(s) == s.(queue := rest, gone := s.gone + [GivenUp(id)])
  {
    assert s.queue[1..] == rest;
  }

  /** Success counts for the server and delivers the front; failure moves on to the next server, around the list. */
  lemma AnswerMoves(s: Sender, ok: bool, sorted: seq<string>)
    requires Enabled(s, PostResult(ok, sorted))
    ensures var t, server := Step(s, PostResult(ok, sorted)), s.servers[s.index];
            && !t.waiting && t.accepted == s.accepted
            && if ok then
                 && !t.posting && t.queue == s.queue[1..] && t.gone == s.gone + [Delivered(s.queue[0].id)]
                 && t.servers == s.servers && t.index == s.index
                 && server in t.success && t.success[server] == 1 + (if server in s.success then s.success[server] else 0)
                 && forall x :: x != server ==> (x in t.success <==> x in s.success) && (x in s.success ==> t.success[x] == s.success[x])
               else
                 && t.posting && t.queue == s.queue && t.gone == s.gone && t.success == s.success
                 && t.index == (s.index + 1) % |s.servers|
                 && t.servers == if s.index + 1 == |s.servers| && |s.servers| > 1 then sorted else s.servers
  {
  }

  // ---------------------------------------------------------------------------------------
  // A post is answered once

  /** Each post calls back once, so an answer comes only for a post that is still waiting for it. */
  ghost predicate AnsweredOnce(s: Sender, es: seq<Event>)
    requires Possible(s, es)
    decreases |es|
  {
    es == [] || ((es[0].PostResult? ==> s.waiting) && AnsweredOnce(Step(s, es[0]), es[1..]))
  }

  predicate Fails(es: seq<Event>) {
    exists k :: 0 <= k < |es| && es[k].PostResult? && !es[k].ok
  }

  /** The sender still holds a post that has already been answered. */
  predicate Stuck(s: Sender) {
    s.posting && !s.waiting
  }

  lemma StuckStays(s: Sender, e: Event)
    requires Stuck(s) && Enabled(s, e) && !e.PostResult?
    ensures Stuck(Step(s, e)) && Step(s, e).gone == s.gone && s.queue <= Step(s, e).queue && Step(s, e).servers == s.servers
  {
  }

  /** After one failure nothing is ever delivered, retried or dropped again: the post is never let go. */
  lemma {:induction false} FailureIsFinal(s: Sender, es: seq<Event>)
    requires Stuck(s) && Possible(s, es) && AnsweredOnce(s, es)
    ensures Stuck(Run(s, es)) && Run(s, es).gone == s.gone && s.queue <= Run(s, es).queue && Run(s, es).servers == s.servers
    decreases |es|
  {
    if es != [] {
      StuckStays(s, es[0]);
      FailureIsFinal(Step(s, es[0]), es[1..]);
    }
  }

  /** The sender before any failure: posting exactly while waiting, and always with the first server. */
  predicate Healthy(s: Sender, servers: seq<string>) {
    s.posting == s.waiting && -1 <= s.index <= 0 && s.servers == servers && (s.posting ==> s.index == 0 && s.servers != [])
  }

  lemma HealthyStep(s: Sender, servers: seq<string>, e: Event)
    requires Healthy(s, servers) && Enabled(s, e) && (e.PostResult? ==> s.waiting)
    ensures e.PostResult? && !e.ok ==> Stuck(Step(s, e)) && Step(s, e).servers == servers
    ensures !(e.PostResult? && !e.ok) ==> Healthy(Step(s, e), servers)
  {
    match e
    case AddReport(id, compresses) =>
      SkipLeavesRest(s.(queue := s.queue + [Report(id, 0)], accepted := s.accepted + [id]));
    case Timer(compresses) => SkipLeavesRest(s);
    case PostResult(ok, sorted) =>
  }

  lemma {:induction false} SkipLeavesRest(s: Sender)
    ensures var t := SkipInvalid(s);
            t.posting == s.posting && t.waiting == s.waiting && t.index == s.index && t.servers == s.servers
    decreases |s.queue|
  {
    if s.queue != [] && !Valid(s.queue[0]) {
      SkipLeavesRest(s.(queue := s.queue[1..], gone := s.gone + [GivenUp(s.queue[0].id)]));
    }
  }

  /** The sender gets stuck exactly when a post has failed; the servers are never reordered. */
  lemma {:induction false} StuckIffFailed(s: Sender, servers: seq<string>, es: seq<Event>)
    requires Healthy(s, servers) && Possible(s, es) && AnsweredOnce(s, es)
    ensures Stuck(Run(s, es)) <==> Fails(es)
    ensures Run(s, es).servers == servers
    ensures !Fails(es) ==> Healthy(Run(s, es), servers)
    decreases |es|
  {
    if es != [] {
      HealthyStep(s, servers, es[0]);
      if es[0].PostResult? && !es[0].ok {
        FailureIsFinal(Step(s, es[0]), es[1..]);
        assert Fails(es);
      } else {
        StuckIffFailed(Step(s, es[0]), servers, es[1..]);
        FailsTail(es);
      }
    }
  }

  function Deliveries(gone: seq<Fate>): nat {
    if gone == [] then 0 else Deliveries(gone[..|gone| - 1]) + if gone[|gone| - 1].Delivered? then 1 else 0
  }

  /** The first server has all the deliveries to its name, and no other has any. */
  ghost predicate FirstCounts(s: Sender, servers: seq<string>) {
    && s.success.Keys == (set x | x in servers)
    && forall x :: x in servers ==> s.success[x] == if x == servers[0] then Deliveries(s.gone) else 0
  }

  lemma {:induction false} SkipGivesUp(s: Sender)
    ensures SkipInvalid(s).success == s.success && Deliveries(SkipInvalid(s).gone) == Deliveries(s.gone)
    decreases |s.queue|
  {
    if s.queue != [] && !Valid(s.queue[0]) {
      var fate := GivenUp(s.queue[0].id);
      assert (s.gone + [fate])[..|s.gone|] == s.gone;
      SkipGivesUp(s.(queue := s.queue[1..], gone := s.gone + [fate]));
    }
  }

  lemma DeliveriesNext(gone: seq<Fate>, fate: Fate)
    ensures Deliveries(gone + [fate]) == Deliveries(gone) + if fate.Delivered? then 1 else 0
  {
    assert (gone + [fate])[..|gone|] == gone;
  }

  lemma SendKeepsCounts(s: Sender, servers: seq<string>, compresses: bool)
    requires FirstCounts(s, servers)
    ensures FirstCounts(SendIfAppropriate(s, compresses), servers)
  {
    SkipGivesUp(s);
    var t := SkipInvalid(s);
    if t.queue != [] {
      DeliveriesNext(t.gone, GivenUp(t.queue[0].id));
    }
  }

  lemma HealthyCounts(s: Sender, servers: seq<string>, e: Event)
    requires Healthy(s, servers) && FirstCounts(s, servers) && Enabled(s, e) && (e.PostResult? ==> s.waiting)
    ensures FirstCounts(Step(s, e), servers)
  {
    hide FirstCounts, SkipInvalid;
    match e
    case AddReport(id, compresses) =>
      var t := s.(queue := s.queue + [Report(id, 0)], accepted := s.accepted + [id]);
      SameCounts(s, t, servers);
      SendKeepsCounts(t, servers, compresses);
    case Timer(compresses) => SendKeepsCounts(s, servers, compresses);
    case PostResult(ok, sorted) =>
      if ok {
        AnswerCounts(s, servers, sorted);
      } else {
        SameCounts(s, Step(s, e), servers);
      }
  }

  lemma SameCounts(s: Sender, t: Sender, servers: seq<string>)
    requires FirstCounts(s, servers) && t.success == s.success && t.gone == s.gone
    ensures FirstCounts(t, servers)
  {
  }

  lemma AnswerCounts(s: Sender, servers: seq<string>, sorted: seq<string>)
    requires Healthy(s, servers) && FirstCounts(s, servers) && Enabled(s, PostResult(true, sorted))
    ensures FirstCounts(Step(s, PostResult(true, sorted)), servers)
  {
    DeliveriesNext(s.gone, Delivered(s.queue[0].id));
  }

  /** In every run the count of successes is the number of deliveries, all of them by the first server. */
  lemma {:induction false} SuccessIsDelivery(s: Sender, servers: seq<string>, es: seq<Event>)
    requires Healthy(s, servers) && FirstCounts(s, servers) && Possible(s, es) && AnsweredOnce(s, es)
    ensures FirstCounts(Run(s, es), servers)
    decreases |es|
  {
    hide FirstCounts, Step, Healthy, Stuck, Enabled;
    if es != [] {
      var t := Step(s, es[0]);
      HealthyCounts(s, servers, es[0]);
      HealthyStep(s, servers, es[0]);
      if es[0].PostResult? && !es[0].ok {
        StuckCounts(t, servers, es[1..]);
      } else {
        SuccessIsDelivery(t, servers, es[1..]);
      }
    }
  }

  lemma {:induction false} StuckCounts(s: Sender, servers: seq<string>, es: seq<Event>)
    requires Stuck(s) && FirstCounts(s, servers) && Possible(s, es) && AnsweredOnce(s, es)
    ensures FirstCounts(Run(s, es), servers)
    decreases |es|
  {
    hide FirstCounts;
    if es != [] {
      StuckStays(s, es[0]);
      SameCounts(s, Step(s, es[0]), servers);
      StuckCounts(Step(s, es[0]), servers, es[1..]);
    }
  }

  lemma NewCounts(servers: seq<string>)
    ensures Healthy(New(servers), servers) && FirstCounts(New(servers), servers)
  {
  }

  /** One report, one failed post: from then on the sender is stuck. */
  lemma OneFailureSticks(server: string, id: nat)
    ensures var s, es := New([server]), [AddReport(id, true), PostResult(false, [server])];
            && Possible(s, es) && AnsweredOnce(s, es) && Stuck(Run(s, es)) && |Run(s, es).queue| == 1
  {
    var s, add, fail := New([server]), AddReport(id, true), PostResult(false, [server]);
    var t := Step(s, add);
    assert t.posting && t.waiting && t.index == 0 && t.queue == [Report(id, 1)];
    assert Enabled(t, fail);
    var es := [add, fail];
    assert es[1..] == [fail] && [fail][1..] == [];
    var u := Step(t, fail);
    assert Possible(u, []) && Run(u, []) == u && AnsweredOnce(u, []);
    assert Possible(t, [fail]) && Run(t, [fail]) == u && AnsweredOnce(t, [fail]);
  }

  lemma FailsTail(es: seq<Event>)
    requires es != [] && !(es[0].PostResult? && !es[0].ok)
    ensures Fails(es) <==> Fails(es[1..])
  {
    if Fails(es) {
      var k :| 0 <= k < |es| && es[k].PostResult? && !es[k].ok;
      assert es[1..][k - 1] == es[k];
    }
  }

  // ---------------------------------------------------------------------------------------
  // The object

  class StatisticsReportSender {
    var servers: seq<string>
    var selectedServerIndex: int
    var pendingReports: seq<Report>
    var httpPost: bool
    var serversSuccessfulCount: map<string, nat>
    ghost var accepted: seq<nat>
    ghost var gone: seq<Fate>
    ghost var waiting: bool

    ghost function State(): Sender
      reads this
    {
      Sender(servers, selectedServerIndex, pendingReports, httpPost, serversSuccessfulCount, accepted, gone, waiting)
    }

    constructor (servers: seq<string>)
      ensures State() == New(servers)
    {
      this.servers, selectedServerIndex, pendingReports, httpPost := servers, -1, [], false;
      accepted, gone, waiting := [], [], false;
      new;
      var counts: map<string, nat> := map[];
      for k := 0 to |servers|
        invariant counts == map x | x in servers[..k] :: 0
      {
        counts := counts[servers[k] := 0];
      }
      assert servers[..|servers|] == servers;
      serversSuccessfulCount := counts;
    }

    method AddReport(id: nat, compresses: bool)
      modifies this
      ensures State() == Add(old(State()), id, compresses)
    {
      if |pendingReports| >= MAX_PENDING {
        return;
      }
      pendingReports := pendingReports + [Report(id, 0)];
      accepted := accepted + [id];
      SendReportIfAppropriate(compresses);
    }

    method SendReportIfAppropriate(compresses: bool)
      modifies this
      ensures State() == SendIfAppropriate(old(State()), compresses)
    {
      if httpPost || |servers| == 0 {
        return;
      }
      while |pendingReports| > 0
        modifies `pendingReports, `gone
        invariant SkipInvalid(State()) == SkipInvalid(old(State()))
      {
        if Valid(pendingReports[0]) {
          break;
        }
        gone := gone + [GivenUp(pendingReports[0].id)];
        pendingReports := pendingReports[1..];
      }
      if |pendingReports| == 0 {
        return;
      }
      var front := pendingReports[0].(attempts := pendingReports[0].attempts + 1);
      pendingReports := [front] + pendingReports[1..];
      if selectedServerIndex < 0 {
        selectedServerIndex := 0;
      }
      httpPost := true;
      if compresses {
        waiting := true;
      } else {
        httpPost := false;
        pendingReports := pendingReports[1..];
        gone := gone + [GivenUp(front.id)];
      }
    }

    method OnPostResult(ok: bool, sorted: seq<string>)
      requires httpPost && |pendingReports| > 0 && 0 <= selectedServerIndex < |servers|
      modifies this
      ensures State() == Answer(old(State()), ok, sorted)
    {
      waiting := false;
      if ok {
        var server := servers[selectedServerIndex];
        var before := if server in serversSuccessfulCount then serversSuccessfulCount[server] else 0;
        serversSuccessfulCount := serversSuccessfulCount[server := before + 1];
        httpPost := false;
        gone := gone + [Delivered(pendingReports[0].id)];
        pendingReports := pendingReports[1..];
      } else if selectedServerIndex + 1 < |servers| {
        selectedServerIndex := selectedServerIndex + 1;
      } else {
        if |servers| > 1 {
          servers := sorted;
        }
        selectedServerIndex := 0;
      }
    }
  }
}
