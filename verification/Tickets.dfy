/**
 * Ticket lifecycle and the SLA sweep, as one machine. Status changes interleave
 * with the single sweep worker between its SELECT, its UPDATE and each of its
 * notifications, and the worker may die at any point and start over.
 */
module Tickets {
  import opened Prelude

  datatype Status = Accepted | Dispatched | InService | Completed | Closed | Cancelled

  datatype Role = Administrator | ServiceAgent | Moderator | DataOperator | RegularUser

  datatype Denial = InvalidTransition | Forbidden

  datatype Ticket = Ticket(owner: nat, agent: Option<nat>, status: Status, deadline: Option<nat>, breached: bool, cancelReason: string)

  /** The role matrix: None lets the change through. */
  function CheckTransition(current: Status, next: Status, caller: nat, roles: set<Role>, owner: nat): Option<Denial> {
    if current == next then Some(InvalidTransition)
    else if Administrator in roles then
      if current == Closed || current == Cancelled then Some(InvalidTransition) else None
    else if ServiceAgent in roles then
      if (current == Accepted && next == Dispatched) || (current == Dispatched && next == InService) || (current == InService && next == Completed)
      then None
      else Some(InvalidTransition)
    else if caller != owner then Some(Forbidden)
    else if next != Cancelled then Some(InvalidTransition)
    else if current != Accepted then Some(InvalidTransition)
    else None
  }

  /** The row after a change that was let through. */
  function Moved(t: Ticket, caller: nat, roles: set<Role>, next: Status, reason: string): Ticket {
    if next == Cancelled && reason != "" then t.(status := next, cancelReason := reason)
    else if next == Dispatched && t.agent.None? && ServiceAgent in roles then t.(status := next, agent := Some(caller))
    else t.(status := next)
  }

  /** Work still has to be done on the ticket. */
  predicate IsOpen(st: Status) {
    st != Completed && st != Closed && st != Cancelled
  }

  /** The WHERE clause shared by the sweep's SELECT and UPDATE. */
  predicate IsDue(t: Ticket, now: nat) {
    t.deadline.Some? && t.deadline.value < now && !t.breached && IsOpen(t.status)
  }

  function Due(tickets: map<nat, Ticket>, now: nat): set<nat> {
    set id | id in tickets && IsDue(tickets[id], now)
  }

  /** The bulk UPDATE. */
  function FlagDue(tickets: map<nat, Ticket>, now: nat): map<nat, Ticket> {
    map id | id in tickets :: if IsDue(tickets[id], now) then tickets[id].(breached := true) else tickets[id]
  }

  datatype Sweep = Idle | Selected(pending: seq<nat>) | Notifying(pending: seq<nat>)

  datatype State = State(tickets: map<nat, Ticket>, clock: nat, sweep: Sweep, notified: seq<nat>)

  datatype Event =
    | Tick
    | Create(id: nat, owner: nat, responseTime: nat)
    | Transition(id: nat, caller: nat, roles: set<Role>, next: Status, reason: string)
    | Select(order: seq<nat>)
    | Flag(ok: bool)
    | Notify
    | WorkerStops

  /** Some of the tickets, each once: what is read of a result set that may break off. */
  predicate Draws(order: seq<nat>, ids: set<nat>) {
    Distinct(order) && forall id | id in order :: id in ids
  }

  /** All of the tickets, each once, in some order. */
  predicate Lists(order: seq<nat>, ids: set<nat>) {
    Distinct(order) && (forall id | id in ids :: id in order) && (forall id | id in order :: id in ids)
  }

  function Apply(s: State, e: Event): State {
    match e
    case Tick => s.(clock := s.clock + 1)
    case Create(id, owner, responseTime) =>
      if id in s.tickets then s
      else s.(tickets := s.tickets[id := Ticket(owner, None, Accepted, Some(s.clock + responseTime), false, "")])
    case Transition(id, caller, roles, next, reason) =>
      if id !in s.tickets || CheckTransition(s.tickets[id].status, next, caller, roles, s.tickets[id].owner).Some? then s
      else s.(tickets := s.tickets[id := Moved(s.tickets[id], caller, roles, next, reason)])
    case Select(order) =>
      if !s.sweep.Idle? || !Draws(order, Due(s.tickets, s.clock)) || order == [] then s
      else s.(sweep := Selected(order))
    case Flag(ok) =>
      if !s.sweep.Selected? then s
      else if ok then s.(tickets := FlagDue(s.tickets, s.clock), sweep := Notifying(s.sweep.pending))
      else s.(sweep := Idle)
    case Notify =>
      if !s.sweep.Notifying? then s
      else if s.sweep.pending == [] then s.(sweep := Idle)
      else s.(sweep := Notifying(s.sweep.pending[1..]), notified := s.notified + [s.sweep.pending[0]])
    case WorkerStops => s.(sweep := Idle)
  }

  function Exec(s: State, es: seq<Event>): State {
    if es == [] then s else Apply(Exec(s, es[..|es| - 1]), es[|es| - 1])
  }

  // -------------------------------------------------------- the role matrix

  /** The whole matrix: which moves are let through, and which refusal is a Forbidden. */
  lemma MatrixExact(current: Status, next: Status, caller: nat, roles: set<Role>, owner: nat)
    ensures CheckTransition(current, next, caller, roles, owner).None? <==>
      || (Administrator in roles && next != current && current !in {Closed, Cancelled})
      || (Administrator !in roles && ServiceAgent in roles && (current, next) in {(Accepted, Dispatched), (Dispatched, InService), (InService, Completed)})
      || (Administrator !in roles && ServiceAgent !in roles && caller == owner && (current, next) == (Accepted, Cancelled))
    ensures CheckTransition(current, next, caller, roles, owner) == Some(Forbidden) <==>
      Administrator !in roles && ServiceAgent !in roles && caller != owner && next != current
  {
  }

  // -------------------------------------------------- what no run ever undoes

  /** What one event can do to one ticket. */
  predicate KeptBy(t: Ticket, u: Ticket) {
    && (t.status in {Closed, Cancelled} ==> u.status == t.status)
    && (t.agent.Some? ==> u.agent == t.agent)
    && u.deadline == t.deadline && u.owner == t.owner
    && (t.breached ==> u.breached)
  }

  lemma StepKeeps(s: State, e: Event, id: nat)
    requires id in s.tickets
    ensures id in Apply(s, e).tickets && KeptBy(s.tickets[id], Apply(s, e).tickets[id])
  {
  }

  /** Closed and Cancelled are never left, an assigned agent, a deadline and a breach flag stay, in any run. */
  lemma {:induction false} NeverUndone(s: State, es: seq<Event>, n: nat, id: nat)
    requires n <= |es| && id in Exec(s, es[..n]).tickets
    ensures id in Exec(s, es).tickets && KeptBy(Exec(s, es[..n]).tickets[id], Exec(s, es).tickets[id])
  {
    if n == |es| {
      assert es[..n] == es;
    } else {
      var front := es[..|es| - 1];
      assert front[..n] == es[..n];
      NeverUndone(s, front, n, id);
      StepKeeps(Exec(s, front), es[|es| - 1], id);
    }
  }

  /** A cancel reason is only ever found on a cancelled ticket. */
  lemma {:induction false} ReasonMeansCancelled(s: State, es: seq<Event>, id: nat)
    requires forall i :: i in s.tickets && s.tickets[i].cancelReason != "" ==> s.tickets[i].status == Cancelled
    requires id in Exec(s, es).tickets && Exec(s, es).tickets[id].cancelReason != ""
    ensures Exec(s, es).tickets[id].status == Cancelled
  {
    if es != [] {
      var before, e := Exec(s, es[..|es| - 1]), es[|es| - 1];
      if id in before.tickets {
        if before.tickets[id].cancelReason != "" {
          ReasonMeansCancelled(s, es[..|es| - 1], id);
          StepKeeps(before, e, id);
        }
      }
    }
  }

  lemma StepAssigns(s: State, e: Event, id: nat)
    requires id in Apply(s, e).tickets && Apply(s, e).tickets[id].agent.Some?
    ensures (id in s.tickets && s.tickets[id].agent == Apply(s, e).tickets[id].agent)
      || (id in s.tickets && s.tickets[id].agent == None && s.tickets[id].status != Dispatched && e.Transition? && e.id == id && e.next == Dispatched
          && ServiceAgent in e.roles && Apply(s, e).tickets[id].agent == Some(e.caller) && Apply(s, e).tickets[id].status == Dispatched)
  {
  }

  /** Who becomes the agent: whoever, with the service agent's role, made the move to Dispatched that first gave the ticket one. */
  lemma {:induction false} AgentIsDispatcher(s: State, es: seq<Event>, id: nat, agent: nat) returns (k: nat)
    requires id in s.tickets ==> s.tickets[id].agent == None
    requires id in Exec(s, es).tickets && Exec(s, es).tickets[id].agent == Some(agent)
    ensures k < |es| && es[k].Transition? && es[k].id == id && es[k].next == Dispatched && ServiceAgent in es[k].roles && es[k].caller == agent
    ensures id in Exec(s, es[..k]).tickets && Exec(s, es[..k]).tickets[id].agent == None
    ensures id in Exec(s, es[..k + 1]).tickets && Exec(s, es[..k + 1]).tickets[id].status == Dispatched
  {
    var front, e := es[..|es| - 1], es[|es| - 1];
    var before := Exec(s, front);
    StepAssigns(before, e, id);
    if id in before.tickets && before.tickets[id].agent == Some(agent) {
      k := AgentIsDispatcher(s, front, id, agent);
      assert front[..k] == es[..k] && front[..k + 1] == es[..k + 1];
    } else {
      k := |es| - 1;
      assert es[..k + 1] == es;
    }
  }

  lemma StepReasons(s: State, e: Event, id: nat)
    requires id in Apply(s, e).tickets && Apply(s, e).tickets[id].cancelReason != ""
    ensures (id in s.tickets && s.tickets[id].cancelReason == Apply(s, e).tickets[id].cancelReason)
      || (e.Transition? && e.id == id && e.next == Cancelled && e.reason == Apply(s, e).tickets[id].cancelReason)
  {
  }

  /** A reason found on a ticket that began without one is that of the move that cancelled it. */
  lemma {:induction false} ReasonIsCancellers(s: State, es: seq<Event>, id: nat) returns (k: nat)
    requires id in s.tickets ==> s.tickets[id].cancelReason == ""
    requires id in Exec(s, es).tickets && Exec(s, es).tickets[id].cancelReason != ""
    ensures k < |es| && es[k].Transition? && es[k].id == id && es[k].next == Cancelled && es[k].reason == Exec(s, es).tickets[id].cancelReason
  {
    var front, e := es[..|es| - 1], es[|es| - 1];
    var before := Exec(s, front);
    StepReasons(before, e, id);
    if id in before.tickets && before.tickets[id].cancelReason == Exec(s, es).tickets[id].cancelReason {
      k := ReasonIsCancellers(s, front, id);
    } else {
      k := |es| - 1;
    }
  }

  // ----------------------------------------------------- progress without admins

  predicate AdminFree(es: seq<Event>) {
    forall i | 0 <= i < |es| :: es[i].Transition? ==> Administrator !in es[i].roles
  }

  function Rank(st: Status): nat {
    match st
    case Accepted => 0
    case Dispatched => 1
    case InService => 2
    case Completed => 3
    case Closed => 3
    case Cancelled => 3
  }

  function RankOf(s: State, id: nat): nat {
    if id in s.tickets then Rank(s.tickets[id].status) else 0
  }

  /** The event changes the ticket's status. */
  predicate Succeeds(s: State, e: Event, id: nat) {
    e.Transition? && e.id == id && id in s.tickets && id in Apply(s, e).tickets && Apply(s, e).tickets[id].status != s.tickets[id].status
  }

  function Successes(s: State, es: seq<Event>, id: nat): nat {
    if es == [] then 0
    else Successes(s, es[..|es| - 1], id) + if Succeeds(Exec(s, es[..|es| - 1]), es[|es| - 1], id) then 1 else 0
  }

  lemma StepClimbs(s: State, e: Event, id: nat)
    requires e.Transition? ==> Administrator !in e.roles
    ensures RankOf(Apply(s, e), id) >= RankOf(s, id) + if Succeeds(s, e, id) then 1 else 0
  {
  }

  /** Without administrators every status change climbs, so a ticket's status changes at most three times. */
  lemma {:induction false} AtMostThreeChanges(s: State, es: seq<Event>, id: nat)
    requires AdminFree(es)
    ensures RankOf(Exec(s, es), id) >= RankOf(s, id) + Successes(s, es, id)
    ensures Successes(s, es, id) <= 3
  {
    if es != [] {
      var front := es[..|es| - 1];
      AtMostThreeChanges(s, front, id);
      StepClimbs(Exec(s, front), es[|es| - 1], id);
    }
  }

  // ------------------------------------------------------- breach notifications

  function Count(s: seq<nat>, id: nat): nat {
    if s == [] then 0 else Count(s[..|s| - 1], id) + if s[|s| - 1] == id then 1 else 0
  }

  /** The event takes a completed ticket back to work. */
  predicate Reopens(s: State, e: Event, id: nat) {
    id in s.tickets && s.tickets[id].status == Completed && id in Apply(s, e).tickets && IsOpen(Apply(s, e).tickets[id].status)
  }

  function Reopenings(s: State, es: seq<Event>, id: nat): nat {
    if es == [] then 0
    else Reopenings(s, es[..|es| - 1], id) + if Reopens(Exec(s, es[..|es| - 1]), es[|es| - 1], id) then 1 else 0
  }

  /** The worker holds the ticket and has yet to notify its owner. */
  predicate Pending(s: State, id: nat) {
    !s.sweep.Idle? && id in s.sweep.pending
  }

  /** Notifications sent and still owed. */
  function Owed(s: State, id: nat): nat {
    Count(s.notified, id) + if Pending(s, id) then 1 else 0
  }

  /** A later SELECT could return the ticket without its status being touched first. */
  predicate Eligible(s: State, id: nat) {
    id in s.tickets && IsOpen(s.tickets[id].status) && !s.tickets[id].breached && !(s.sweep.Selected? && id in s.sweep.pending)
  }

  /** `r` reopenings allow for one notification more than `r`, and for only `r` while the ticket can still be selected. */
  ghost predicate Budget(s: State, id: nat, r: nat) {
    && Owed(s, id) <= r + 1
    && (Eligible(s, id) ==> Owed(s, id) <= r)
    && (id !in s.tickets ==> Owed(s, id) == 0)
    && (!s.sweep.Idle? ==> Distinct(s.sweep.pending))
    && (s.sweep.Selected? && id in s.sweep.pending ==>
          id in s.tickets && s.tickets[id].deadline.Some? && s.tickets[id].deadline.value < s.clock)
  }

  lemma CountSnoc(s: seq<nat>, x: nat, id: nat)
    ensures Count(s + [x], id) == Count(s, id) + if x == id then 1 else 0
  {
    assert (s + [x])[..|s|] == s;
  }

  lemma NotifyKeepsBudget(s: State, id: nat, r: nat)
    requires Budget(s, id, r) && s.sweep.Notifying? && s.sweep.pending != []
    ensures Budget(Apply(s, Notify), id, r)
  {
    var p := s.sweep.pending;
    CountSnoc(s.notified, p[0], id);
    RestDistinct(p);
    assert Owed(Apply(s, Notify), id) == Owed(s, id);
  }

  lemma StepKeepsBudget(s: State, e: Event, id: nat, r: nat)
    requires Budget(s, id, r)
    ensures Budget(Apply(s, e), id, r + if Reopens(s, e, id) then 1 else 0)
  {
    if e.Notify? && s.sweep.Notifying? && s.sweep.pending != [] {
      NotifyKeepsBudget(s, id, r);
    } else if e.Transition? {
      assert Apply(s, e).sweep == s.sweep && Apply(s, e).notified == s.notified;
    } else if e.Flag? && s.sweep.Selected? {
      assert Apply(s, e).notified == s.notified;
    }
  }

  /**
   * However the sweep interleaves with everything else, a ticket is notified at most
   * once more than it is taken back from Completed to an open status.
   */
  lemma {:induction false} NotifiedOncePerReopening(s: State, es: seq<Event>, id: nat)
    requires s.sweep.Idle? && s.notified == []
    ensures Budget(Exec(s, es), id, Reopenings(s, es, id))
    ensures Count(Exec(s, es).notified, id) <= 1 + Reopenings(s, es, id)
  {
    if es != [] {
      var front := es[..|es| - 1];
      NotifiedOncePerReopening(s, front, id);
      StepKeepsBudget(Exec(s, front), es[|es| - 1], id, Reopenings(s, front, id));
    }
  }

  lemma {:induction false} OnlyAdminsReopen(s: State, es: seq<Event>, id: nat)
    requires AdminFree(es)
    ensures Reopenings(s, es, id) == 0
  {
    if es != [] {
      OnlyAdminsReopen(s, es[..|es| - 1], id);
    }
  }

  /** Without administrator moves no ticket is ever notified twice. */
  lemma AtMostOneNotification(s: State, es: seq<Event>, id: nat)
    requires s.sweep.Idle? && s.notified == [] && AdminFree(es)
    ensures Count(Exec(s, es).notified, id) <= 1
  {
    NotifiedOncePerReopening(s, es, id);
    OnlyAdminsReopen(s, es, id);
  }

  // ------------------------------------------------------ what a missed UPDATE does

  /** The UPDATE finds a ticket that the SELECT returned no longer open: it will be notified, but is not flagged. */
  predicate Misses(s: State, e: Event, id: nat) {
    e.Flag? && e.ok && s.sweep.Selected? && id in s.sweep.pending && id in s.tickets && !IsOpen(s.tickets[id].status)
  }

  function Missed(s: State, es: seq<Event>, id: nat): nat {
    if es == [] then 0
    else Missed(s, es[..|es| - 1], id) + if Misses(Exec(s, es[..|es| - 1]), es[|es| - 1], id) then 1 else 0
  }

  /** The worker is past the UPDATE and has yet to notify the ticket's owner. */
  predicate Promised(s: State, id: nat) {
    s.sweep.Notifying? && id in s.sweep.pending
  }

  /** What the sweep holds is listed once, and a selected ticket was and stays overdue and unflagged. */
  ghost predicate Overdue(s: State, id: nat) {
    && (!s.sweep.Idle? ==> Distinct(s.sweep.pending) && (id in s.sweep.pending ==> id in s.tickets))
    && (s.sweep.Selected? && id in s.sweep.pending ==>
          !s.tickets[id].breached && s.tickets[id].deadline.Some? && s.tickets[id].deadline.value < s.clock)
  }

  /** Every notification sent or promised is paid for, by the flag or by a miss. */
  ghost predicate Charged(s: State, id: nat, missed: nat) {
    && Overdue(s, id)
    && (id !in s.tickets ==> Count(s.notified, id) == 0)
    && Count(s.notified, id) + (if Promised(s, id) then 1 else 0) <= missed + if id in s.tickets && s.tickets[id].breached then 1 else 0
  }

  lemma NotifyKeepsCharged(s: State, id: nat, missed: nat)
    requires Charged(s, id, missed) && s.sweep.Notifying? && s.sweep.pending != []
    ensures Charged(Apply(s, Notify), id, missed)
  {
    CountSnoc(s.notified, s.sweep.pending[0], id);
    RestDistinct(s.sweep.pending);
  }

  lemma StepKeepsCharged(s: State, e: Event, id: nat, missed: nat)
    requires Charged(s, id, missed)
    ensures Charged(Apply(s, e), id, missed + if Misses(s, e, id) then 1 else 0)
  {
    if e.Notify? && s.sweep.Notifying? && s.sweep.pending != [] {
      NotifyKeepsCharged(s, id, missed);
    } else if e.Transition? || e.Flag? {
      assert Apply(s, e).notified == s.notified;
    }
  }

  /**
   * In any run, administrators included, a ticket is notified at most once more than
   * an UPDATE misses it.
   */
  lemma {:induction false} NotifiedOncePerMiss(s: State, es: seq<Event>, id: nat)
    requires s.sweep.Idle? && s.notified == []
    ensures Charged(Exec(s, es), id, Missed(s, es, id))
    ensures Count(Exec(s, es).notified, id) <= 1 + Missed(s, es, id)
  {
    if es != [] {
      var front := es[..|es| - 1];
      NotifiedOncePerMiss(s, front, id);
      StepKeepsCharged(Exec(s, front), es[|es| - 1], id, Missed(s, front, id));
    }
  }

  /** No miss, no second notification. */
  lemma UnmissedNotifiedOnce(s: State, es: seq<Event>, id: nat)
    requires s.sweep.Idle? && s.notified == [] && Missed(s, es, id) == 0
    ensures Count(Exec(s, es).notified, id) <= 1
  {
    NotifiedOncePerMiss(s, es, id);
  }

  lemma {:induction false} ExecConcat(s: State, es: seq<Event>, fs: seq<Event>)
    ensures Exec(s, es + fs) == Exec(Exec(s, es), fs)
  {
    if fs == [] {
      assert es + fs == es;
    } else {
      var front := fs[..|fs| - 1];
      ExecConcat(s, es, front);
      assert (es + fs)[..|es + fs| - 1] == es + front;
    }
  }

  lemma ExecOne(s: State, e: Event)
    ensures Exec(s, [e]) == Apply(s, e)
  {
    assert [e][..0] == [];
  }

  /** One more event at the end. */
  lemma Then(s: State, es: seq<Event>, t: State, e: Event) returns (fs: seq<Event>)
    requires Exec(s, es) == t
    ensures fs == es + [e] && Exec(s, fs) == Apply(t, e)
  {
    fs := es + [e];
    assert fs[..|es|] == es;
  }

  lemma {:induction false} CountConcat(a: seq<nat>, b: seq<nat>, id: nat)
    ensures Count(a + b, id) == Count(a, id) + Count(b, id)
  {
    if b == [] {
      assert a + b == a;
    } else {
      CountConcat(a, b[..|b| - 1], id);
      assert (a + b)[..|a + b| - 1] == a + b[..|b| - 1];
    }
  }

  lemma {:induction false} CountMember(s: seq<nat>, id: nat)
    requires id in s
    ensures Count(s, id) >= 1
  {
    var front, last := s[..|s| - 1], s[|s| - 1];
    assert s == front + [last];
    if last != id {
      CountMember(front, id);
    }
  }

  /** The worker gets through what it has left. */
  lemma {:induction false} Drain(s: State, p: seq<nat>) returns (es: seq<Event>)
    requires s.sweep == Notifying(p)
    ensures Exec(s, es) == s.(sweep := Idle, notified := s.notified + p)
    decreases p
  {
    ExecOne(s, Notify);
    if p == [] {
      es := [Notify];
      assert s.notified + p == s.notified;
    } else {
      var t := Apply(s, Notify);
      var rest := Drain(t, p[1..]);
      es := [Notify] + rest;
      ExecConcat(s, [Notify], rest);
      assert (s.notified + [p[0]]) + p[1..] == s.notified + p;
    }
  }

  lemma {:induction false} AsList(ids: set<nat>) returns (order: seq<nat>)
    ensures Lists(order, ids)
    decreases |ids|
  {
    order := [];
    if ids != {} {
      var id :| id in ids;
      var rest := AsList(ids - {id});
      order := rest + [id];
    }
  }

  /** A whole sweep, from SELECT to the last notice, with nothing in between. */
  lemma SweepNow(s: State, id: nat) returns (es: seq<Event>)
    requires s.sweep.Idle? && id in Due(s.tickets, s.clock)
    ensures Count(Exec(s, es).notified, id) >= Count(s.notified, id) + 1
  {
    var order := AsList(Due(s.tickets, s.clock));
    var t := Apply(s, Select(order));
    assert id in order && t == s.(sweep := Selected(order));
    ExecOne(s, Select(order));
    var fs := Then(s, [Select(order)], t, Flag(true));
    var u := Apply(t, Flag(true));
    var gs := Drain(u, order);
    ExecConcat(s, fs, gs);
    es := fs + gs;
    CountConcat(s.notified, order, id);
    CountMember(order, id);
  }

  /** A missed ticket that was completed can be reopened, and is then notified a second time. */
  lemma MissedAgain(t: State, id: nat) returns (es: seq<Event>)
    requires Misses(t, Flag(true), id) && Overdue(t, id) && t.tickets[id].status == Completed
    ensures Count(Exec(Apply(t, Flag(true)), es).notified, id) >= Count(t.notified, id) + 2
  {
    var s0, p := Apply(t, Flag(true)), t.sweep.pending;
    var es1 := Drain(s0, p);
    var s1 := s0.(sweep := Idle, notified := s0.notified + p);
    CountConcat(s0.notified, p, id);
    CountMember(p, id);
    var reopen := Transition(id, 0, {Administrator}, InService, "");
    var es2 := Then(s0, es1, s1, reopen);
    var s2 := Apply(s1, reopen);
    assert id in Due(s2.tickets, s2.clock);
    var es3 := SweepNow(s2, id);
    ExecConcat(s0, es2, es3);
    es := es2 + es3;
  }

  /** A closed or cancelled ticket that no SELECT has returned gets no more notices than it was promised. */
  ghost predicate Settled(s: State, id: nat, bound: nat) {
    && id in s.tickets && s.tickets[id].status in {Closed, Cancelled}
    && (!s.sweep.Idle? ==> Distinct(s.sweep.pending)) && !(s.sweep.Selected? && id in s.sweep.pending)
    && Count(s.notified, id) + (if Promised(s, id) then 1 else 0) <= bound
  }

  lemma StepKeepsSettled(s: State, e: Event, id: nat, bound: nat)
    requires Settled(s, id, bound)
    ensures Settled(Apply(s, e), id, bound)
  {
    StepKeeps(s, e, id);
    if e.Notify? && s.sweep.Notifying? && s.sweep.pending != [] {
      CountSnoc(s.notified, s.sweep.pending[0], id);
      RestDistinct(s.sweep.pending);
    } else if e.Transition? || e.Flag? {
      assert Apply(s, e).notified == s.notified;
    }
  }

  lemma {:induction false} StaysSettled(s: State, es: seq<Event>, id: nat, bound: nat)
    requires Settled(s, id, bound)
    ensures Settled(Exec(s, es), id, bound)
  {
    if es != [] {
      StaysSettled(s, es[..|es| - 1], id, bound);
      StepKeepsSettled(Exec(s, es[..|es| - 1]), es[|es| - 1], id, bound);
    }
  }

  /**
   * When a miss leads to a second notification: in any run, some continuation notifies
   * the missed ticket again, after the notice this sweep still owes, if and only if the
   * ticket was Completed. A Closed or Cancelled one is never taken back.
   */
  lemma NotifiedAgainExactly(s: State, es: seq<Event>, t: State, id: nat)
    requires s.sweep.Idle? && s.notified == [] && t == Exec(s, es) && Misses(t, Flag(true), id)
    ensures (exists fs :: Count(Exec(Apply(t, Flag(true)), fs).notified, id) >= Count(t.notified, id) + 2) <==> t.tickets[id].status == Completed
  {
    NotifiedOncePerMiss(s, es, id);
    var u := Apply(t, Flag(true));
    if t.tickets[id].status == Completed {
      var fs := MissedAgain(t, id);
    } else {
      forall fs
        ensures Count(Exec(u, fs).notified, id) <= Count(t.notified, id) + 1
      {
        StaysSettled(u, fs, id, Count(t.notified, id) + 1);
      }
    }
  }

  // ------------------------------------------------- who is flagged and never told

  /** Flagged, and in no list the worker holds. */
  ghost predicate Unheard(s: State, id: nat, n: nat) {
    && id in s.tickets && s.tickets[id].breached
    && (!s.sweep.Idle? ==> id !in s.sweep.pending)
    && Count(s.notified, id) == n
  }

  lemma StepKeepsUnheard(s: State, e: Event, id: nat, n: nat)
    requires Unheard(s, id, n)
    ensures Unheard(Apply(s, e), id, n)
  {
    StepKeeps(s, e, id);
    if e.Notify? && s.sweep.Notifying? && s.sweep.pending != [] {
      CountSnoc(s.notified, s.sweep.pending[0], id);
      assert s.sweep.pending == [s.sweep.pending[0]] + s.sweep.pending[1..];
    }
  }

  lemma {:induction false} StaysUnheard(s: State, es: seq<Event>, id: nat, n: nat)
    requires Unheard(s, id, n)
    ensures Unheard(Exec(s, es), id, n)
  {
    if es != [] {
      StaysUnheard(s, es[..|es| - 1], id, n);
      StepKeepsUnheard(Exec(s, es[..|es| - 1]), es[|es| - 1], id, n);
    }
  }

  /**
   * A ticket that the UPDATE flags is ever notified of it, in some continuation, if and
   * only if it is in the list that the SELECT gave.
   */
  lemma FlaggedHeardExactly(t: State, id: nat)
    requires t.sweep.Selected? && id in t.tickets && IsDue(t.tickets[id], t.clock)
    ensures Apply(t, Flag(true)).tickets[id].breached
    ensures (exists fs :: Count(Exec(Apply(t, Flag(true)), fs).notified, id) > Count(t.notified, id)) <==> id in t.sweep.pending
  {
    var u, p := Apply(t, Flag(true)), t.sweep.pending;
    if id in p {
      var fs := Drain(u, p);
      CountConcat(u.notified, p, id);
      CountMember(p, id);
      assert Count(Exec(u, fs).notified, id) > Count(t.notified, id);
    } else {
      forall fs
        ensures Count(Exec(u, fs).notified, id) == Count(t.notified, id)
      {
        StaysUnheard(u, fs, id, Count(t.notified, id));
      }
    }
  }

  /** The worker takes no step. */
  predicate Waiting(es: seq<Event>) {
    forall k | 0 <= k < |es| :: es[k].Tick? || es[k].Create? || es[k].Transition?
  }

  lemma {:induction false} WaitingKeepsSweep(s: State, es: seq<Event>, id: nat)
    requires Waiting(es)
    ensures Exec(s, es).sweep == s.sweep && Exec(s, es).notified == s.notified && Exec(s, es).clock >= s.clock
    ensures id in Exec(s, es).tickets && id !in s.tickets && Exec(s, es).tickets[id].deadline.Some? ==> Exec(s, es).tickets[id].deadline.value >= s.clock
  {
    if es != [] {
      var front, e := es[..|es| - 1], es[|es| - 1];
      WaitingKeepsSweep(s, front, id);
      assert e.Tick? || e.Create? || e.Transition?;
      if id in Exec(s, front).tickets {
        StepKeeps(Exec(s, front), e, id);
      }
    }
  }

  /**
   * How a ticket comes to be flagged without being in the list. When the SELECT ran, it
   * was not past its deadline yet, or it was not open and has been reopened since, or it
   * was due and the result set broke off before it.
   */
  lemma UnheardRoutes(s: State, order: seq<nat>, es: seq<Event>, t: State, id: nat)
    requires s.sweep == Selected(order) && Waiting(es) && t == Exec(s, es)
    requires id in t.tickets && IsDue(t.tickets[id], t.clock) && id !in order
    ensures t.sweep == Selected(order)
    ensures t.tickets[id].deadline.value >= s.clock
      || (id in s.tickets && !IsOpen(s.tickets[id].status))
      || id in Due(s.tickets, s.clock)
  {
    WaitingKeepsSweep(s, es, id);
    if id in s.tickets {
      assert es[..0] == [];
      NeverUndone(s, es, 0, id);
    }
  }

  /** Tickets 7 and 8, past their deadlines. */
  function TwoLate(status: Status, breached: bool, sweep: Sweep): State {
    State(map[7 := Ticket(1, None, InService, Some(0), breached, ""), 8 := Ticket(2, None, status, Some(0), breached, "")], 5, sweep, [])
  }

  lemma TwoLateFlagged()
    ensures var t := TwoLate(InService, false, Selected([7]));
      Due(t.tickets, t.clock) == {7, 8} && Apply(t, Flag(true)) == TwoLate(InService, true, Notifying([7]))
  {
  }

  /** At one instant: the SELECT returns ticket 7, an administrator reopens ticket 8, and the UPDATE flags both. Ticket 8 is never notified. */
  lemma ReopenedUnheard() returns (s: State, es: seq<Event>)
    ensures s == TwoLate(Completed, false, Idle) && |es| == 3 && es[0] == Select([7]) && es[2] == Flag(true)
    ensures Due(s.tickets, s.clock) == {7} && Exec(s, es).clock == s.clock && 8 in Exec(s, es).tickets && Exec(s, es).tickets[8].breached
    ensures forall fs :: Count(Exec(Exec(s, es), fs).notified, 8) == 0
  {
    s := TwoLate(Completed, false, Idle);
    assert Due(s.tickets, s.clock) == {7};
    var reopen := Transition(8, 9, {Administrator}, InService, "");
    var t := TwoLate(Completed, false, Selected([7]));
    ExecOne(s, Select([7]));
    assert Apply(t, reopen) == TwoLate(InService, false, Selected([7]));
    es := Then(s, [Select([7])], t, reopen);
    es := Then(s, es, TwoLate(InService, false, Selected([7])), Flag(true));
    TwoLateFlagged();
    forall fs
      ensures Count(Exec(Exec(s, es), fs).notified, 8) == 0
    {
      StaysUnheard(Exec(s, es), fs, 8, 0);
    }
  }

  /** The result set breaks off after ticket 7, and the UPDATE flags both. Ticket 8 is never notified. */
  lemma BrokenOffUnheard() returns (s: State, es: seq<Event>)
    ensures s == TwoLate(InService, false, Idle) && es == [Select([7]), Flag(true)]
    ensures Due(s.tickets, s.clock) == {7, 8} && 8 in Exec(s, es).tickets && Exec(s, es).tickets[8].breached
    ensures forall fs :: Count(Exec(Exec(s, es), fs).notified, 8) == 0
  {
    s := TwoLate(InService, false, Idle);
    TwoLateFlagged();
    ExecOne(s, Select([7]));
    es := Then(s, [Select([7])], TwoLate(InService, false, Selected([7])), Flag(true));
    forall fs
      ensures Count(Exec(Exec(s, es), fs).notified, 8) == 0
    {
      StaysUnheard(Exec(s, es), fs, 8, 0);
    }
  }

  // ----------------------------------------------------- one notified twice

  /** Ticket 7, past its deadline, with the given status and flag. */
  function Late(status: Status, breached: bool, sweep: Sweep, notified: seq<nat>): State {
    State(map[7 := Ticket(1, None, status, Some(0), breached, "")], 1, sweep, notified)
  }

  function AdminMove(next: Status): Event {
    Transition(7, 9, {Administrator}, next, "")
  }

  lemma LateSelected(notified: seq<nat>)
    ensures Apply(Late(InService, false, Idle, notified), Select([7])) == Late(InService, false, Selected([7]), notified)
  {
    assert Due(Late(InService, false, Idle, notified).tickets, 1) == {7};
  }

  lemma LateFlagged(notified: seq<nat>)
    ensures Apply(Late(InService, false, Selected([7]), notified), Flag(true)) == Late(InService, true, Notifying([7]), notified)
    ensures Apply(Late(Completed, false, Selected([7]), notified), Flag(true)) == Late(Completed, false, Notifying([7]), notified)
  {
  }

  lemma LateMoved(sweep: Sweep, notified: seq<nat>)
    ensures Apply(Late(InService, false, sweep, notified), AdminMove(Completed)) == Late(Completed, false, sweep, notified)
    ensures Apply(Late(Completed, false, sweep, notified), AdminMove(InService)) == Late(InService, false, sweep, notified)
  {
  }

  lemma LateNotified(status: Status, breached: bool, notified: seq<nat>)
    ensures Apply(Late(status, breached, Notifying([7]), notified), Notify) == Late(status, breached, Notifying([]), notified + [7])
    ensures Apply(Late(status, breached, Notifying([]), notified), Notify) == Late(status, breached, Idle, notified)
  {
    var pending: seq<nat> := [7];
    assert pending[1..] == [];
  }

  /** One more event at the end of a run, with the state it leads to. */
  lemma Extend(s: State, es: seq<Event>, e: Event, before: State, after: State) returns (fs: seq<Event>)
    requires Exec(s, es) == before && Apply(before, e) == after
    ensures fs == es + [e] && Exec(s, fs) == after
    ensures Reopenings(s, fs, 7) == Reopenings(s, es, 7) + if Reopens(before, e, 7) then 1 else 0
    ensures Missed(s, fs, 7) == Missed(s, es, 7) + if Misses(before, e, 7) then 1 else 0
  {
    fs := es + [e];
    assert fs[..|es|] == es;
  }

  /** Completed by an administrator between SELECT and UPDATE: notified, yet never flagged. */
  lemma NotifiedUnflagged(s: State) returns (es: seq<Event>)
    requires s == Late(InService, false, Idle, [])
    ensures Reopenings(s, es, 7) == 0 && Missed(s, es, 7) == 1
    ensures Exec(s, es) == Late(Completed, false, Idle, [7])
  {
    LateSelected([]);
    LateMoved(Selected([7]), []);
    LateFlagged([]);
    LateNotified(Completed, false, []);
    LateNotified(Completed, false, [7]);
    es := Extend(s, [], Select([7]), s, Late(InService, false, Selected([7]), []));
    es := Extend(s, es, AdminMove(Completed), Exec(s, es), Late(Completed, false, Selected([7]), []));
    es := Extend(s, es, Flag(true), Exec(s, es), Late(Completed, false, Notifying([7]), []));
    es := Extend(s, es, Notify, Exec(s, es), Late(Completed, false, Notifying([]), [7]));
    es := Extend(s, es, Notify, Exec(s, es), Late(Completed, false, Idle, [7]));
  }

  /** With administrators both bounds are met: that ticket, reopened, is selected and notified again. */
  lemma ReopeningNotifiesTwice() returns (s: State, es: seq<Event>)
    ensures s.sweep.Idle? && s.notified == [] && Reopenings(s, es, 7) == 1 && Missed(s, es, 7) == 1 && Count(Exec(s, es).notified, 7) == 2
  {
    s := Late(InService, false, Idle, []);
    es := NotifiedUnflagged(s);
    LateMoved(Idle, [7]);
    LateSelected([7]);
    LateFlagged([7]);
    LateNotified(InService, true, [7]);
    es := Extend(s, es, AdminMove(InService), Exec(s, es), Late(InService, false, Idle, [7]));
    es := Extend(s, es, Select([7]), Exec(s, es), Late(InService, false, Selected([7]), [7]));
    es := Extend(s, es, Flag(true), Exec(s, es), Late(InService, true, Notifying([7]), [7]));
    es := Extend(s, es, Notify, Exec(s, es), Late(InService, true, Notifying([]), [7] + [7]));
    CountSnoc([], 7, 7);
    CountSnoc([7], 7, 7);
    assert [7] == [] + [7];
  }
}
