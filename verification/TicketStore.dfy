/** The tickets table as the service and the sweep update it, one call at a time. */
module TicketStore {
  import opened Prelude
  import opened Tickets

  datatype UpdateError = NotFound | Denied(why: Denial) | NotSaved | NotReadBack

  /** The tickets an UPDATE flagged. */
  function NewlyFlagged(before: map<nat, Ticket>, after: map<nat, Ticket>): set<nat> {
    set id | id in before && id in after && !before[id].breached && after[id].breached
  }

  lemma FlaggedAreDue(tickets: map<nat, Ticket>, now: nat)
    ensures NewlyFlagged(tickets, FlagDue(tickets, now)) == Due(tickets, now)
  {
  }

  /** The UPDATE flags what is open and past its deadline, and changes nothing else. */
  lemma FlaggedMeans(tickets: map<nat, Ticket>, now: nat)
    ensures FlagDue(tickets, now).Keys == tickets.Keys
    ensures forall id :: id in tickets ==>
      FlagDue(tickets, now)[id] == tickets[id].(breached := tickets[id].breached || (
        tickets[id].deadline.Some? && tickets[id].deadline.value < now && tickets[id].status in {Accepted, Dispatched, InService}))
  {
  }

  /** What may have happened to the tickets since an instant, without an UPDATE of the sweep. */
  predicate Since(before: map<nat, Ticket>, after: map<nat, Ticket>, at: nat) {
    && (forall id | id in before :: id in after && after[id].deadline == before[id].deadline && after[id].breached == before[id].breached)
    && (forall id | id in after :: id in before || (after[id].deadline.Some? ==> after[id].deadline.value >= at))
  }

  /** Selected, but no longer open. */
  function Missed(after: map<nat, Ticket>, selected: set<nat>): set<nat> {
    set id | id in selected && id in after && !IsOpen(after[id].status)
  }

  /** Due at the SELECT and still open, but lost from its result set. */
  function LeftOut(before: map<nat, Ticket>, selected: set<nat>, after: map<nat, Ticket>, selectAt: nat): set<nat> {
    set id | id in Due(before, selectAt) && id !in selected && id in after && IsOpen(after[id].status)
  }

  /** Fallen due between the two statements. */
  function FellDue(after: map<nat, Ticket>, selectAt: nat, updateAt: nat): set<nat> {
    set id | id in after && IsDue(after[id], updateAt) && after[id].deadline.value >= selectAt
  }

  /** Overdue at the SELECT, but open only since. */
  function Reopened(before: map<nat, Ticket>, after: map<nat, Ticket>, selectAt: nat): set<nat> {
    set id | id in before && id in after && !IsOpen(before[id].status) && IsOpen(after[id].status)
      && before[id].deadline.Some? && before[id].deadline.value < selectAt && !before[id].breached
  }

  /**
   * Whom the UPDATE flags, given whom the SELECT listed and what happened in between. The
   * two are the same if and only if no ticket was missed, left out, fell due or was
   * reopened; and whoever is flagged is never selected again.
   */
  lemma SweepExact(before: map<nat, Ticket>, selected: set<nat>, after: map<nat, Ticket>, selectAt: nat, updateAt: nat)
    requires selectAt <= updateAt && Since(before, after, selectAt) && selected <= Due(before, selectAt)
    ensures var flagged := NewlyFlagged(after, FlagDue(after, updateAt));
      && flagged == (selected - Missed(after, selected)) + LeftOut(before, selected, after, selectAt) + FellDue(after, selectAt, updateAt) + Reopened(before, after, selectAt)
      && (flagged == selected <==>
            && Missed(after, selected) == {} && LeftOut(before, selected, after, selectAt) == {}
            && FellDue(after, selectAt, updateAt) == {} && Reopened(before, after, selectAt) == {})
      && (forall id, later: nat | id in flagged :: id !in Due(FlagDue(after, updateAt), later))
  {
    FlaggedAreDue(after, updateAt);
    var flagged := Due(after, updateAt);
    var kept := selected - Missed(after, selected);
    var added := LeftOut(before, selected, after, selectAt) + FellDue(after, selectAt, updateAt) + Reopened(before, after, selectAt);
    forall id
      ensures id in flagged <==> id in kept || id in added
    {
    }
    assert flagged == kept + added;
    assert selected !! added;
    assert Missed(after, selected) <= selected;
    if flagged == selected {
      assert added <= flagged && added == added * selected;
      assert kept == selected;
    }
  }

  /** In the protocol, whatever happens while the worker waits, the tickets of before and after are so related. */
  lemma {:induction false} WaitingSince(s: State, es: seq<Event>, id: nat)
    requires Waiting(es) && id in Exec(s, es).tickets
    ensures id in s.tickets ==> Exec(s, es).tickets[id].deadline == s.tickets[id].deadline && Exec(s, es).tickets[id].breached == s.tickets[id].breached
    ensures id !in s.tickets && Exec(s, es).tickets[id].deadline.Some? ==> Exec(s, es).tickets[id].deadline.value >= s.clock
  {
    WaitingKeepsSweep(s, es, id);
    if es != [] {
      var front, e := es[..|es| - 1], es[|es| - 1];
      assert e.Tick? || e.Create? || e.Transition?;
      if id in Exec(s, front).tickets {
        WaitingSince(s, front, id);
      } else if id in s.tickets {
        assert es[..0] == [] && front[..0] == [];
        NeverUndone(s, front, 0, id);
      }
    }
  }

  /** The same as one statement about both tables. */
  lemma WaitingIsSince(s: State, es: seq<Event>)
    requires Waiting(es)
    ensures Since(s.tickets, Exec(s, es).tickets, s.clock) && Exec(s, es).clock >= s.clock
  {
    WaitingKeepsSweep(s, es, 0);
    forall id | id in Exec(s, es).tickets
      ensures id in s.tickets || (Exec(s, es).tickets[id].deadline.Some? ==> Exec(s, es).tickets[id].deadline.value >= s.clock)
    {
      WaitingSince(s, es, id);
    }
    forall id | id in s.tickets
      ensures id in Exec(s, es).tickets
      ensures Exec(s, es).tickets[id].deadline == s.tickets[id].deadline && Exec(s, es).tickets[id].breached == s.tickets[id].breached
    {
      assert es[..0] == [];
      NeverUndone(s, es, 0, id);
      WaitingSince(s, es, id);
    }
  }

  /** `n` notifications of a listed batch, with nothing in between. */
  lemma {:induction false} NotifyAll(s: State, es: seq<Event>, order: seq<nat>, n: nat)
    requires n <= |order| && Exec(s, es).sweep == Notifying(order)
    ensures Exec(s, es + seq(n, _ => Notify)) == Exec(s, es).(sweep := Notifying(order[n..]), notified := Exec(s, es).notified + order[..n])
  {
    var fs := es + seq(n, _ => Notify);
    if n == 0 {
      assert fs == es;
      assert order[0..] == order && Exec(s, es).notified + order[..0] == Exec(s, es).notified;
    } else {
      NotifyAll(s, es, order, n - 1);
      assert fs[..|fs| - 1] == es + seq(n - 1, _ => Notify);
      assert order[n - 1..][1..] == order[n..] && order[n - 1..][0] == order[n - 1];
      assert order[..n] == order[..n - 1] + [order[n - 1]];
    }
  }

  /** The protocol's sweep with nothing in between is the one-call sweep: flag what is due, notify what was listed. */
  lemma AtomicSweep(s: State, order: seq<nat>)
    requires s.sweep.Idle? && order != [] && Draws(order, Due(s.tickets, s.clock))
    ensures Exec(s, [Select(order), Flag(true)] + seq(|order|, _ => Notify)) ==
      s.(tickets := FlagDue(s.tickets, s.clock), sweep := Notifying([]), notified := s.notified + order)
  {
    var es := [Select(order), Flag(true)];
    assert es[..1] == [Select(order)] && es[..1][..0] == [];
    assert Exec(s, es[..1]) == Apply(s, Select(order));
    assert Exec(s, es) == Apply(Exec(s, es[..1]), Flag(true));
    NotifyAll(s, es, order, |order|);
    assert order[|order|..] == [] && order[..|order|] == order;
  }

  class Store {
    var tickets: map<nat, Ticket>

    /**
     * Inserts an Accepted ticket whose SLA deadline is the category's response time
     * away. Left alone, it is due for the sweep from the first second past the deadline
     * on, and for no sweep before; its owner may cancel it, and an agent may take it.
     */
    method Create(id: nat, owner: nat, now: nat, responseTime: nat, saved: bool, readBack: bool) returns (r: Result<Ticket, UpdateError>)
      requires id !in tickets
      modifies this
      ensures !saved ==> r == Err(NotSaved) && tickets == old(tickets)
      ensures saved ==> forall later: nat :: id in Due(tickets, later) <==> now + responseTime < later
      ensures saved ==> forall other, later: nat :: other != id ==> (other in Due(tickets, later) <==> other in Due(old(tickets), later))
      ensures saved ==> id in tickets && CheckTransition(tickets[id].status, Cancelled, owner, {}, tickets[id].owner).None?
      ensures saved ==> forall agent :: CheckTransition(tickets[id].status, Dispatched, agent, {ServiceAgent}, tickets[id].owner).None?
      ensures saved ==> tickets == old(tickets)[id := Ticket(owner, None, Accepted, Some(now + responseTime), false, "")]
      ensures saved ==> r == if readBack then Ok(tickets[id]) else Err(NotReadBack)
    {
      if !saved {
        return Err(NotSaved);
      }
      tickets := tickets[id := Ticket(owner, None, Accepted, Some(now + responseTime), false, "")];
      return if readBack then Ok(tickets[id]) else Err(NotReadBack);
    }

    /** UpdateStatus: read, check, write, read back; when only the last fails an error is reported on a changed row. */
    method UpdateStatus(id: nat, caller: nat, roles: set<Role>, next: Status, reason: string, saved: bool, readBack: bool) returns (r: Result<Ticket, UpdateError>)
      modifies this
      ensures saved ==> forall s: State :: s.tickets == old(tickets) ==>
        Apply(s, Transition(id, caller, roles, next, reason)) == s.(tickets := tickets)
      ensures r.Ok? || r == Err(NotReadBack) <==>
        id in old(tickets) && CheckTransition(old(tickets)[id].status, next, caller, roles, old(tickets)[id].owner).None? && saved
      ensures r.Ok? || r == Err(NotReadBack) ==> (r.Ok? <==> readBack) && id in tickets && tickets[id].status == next
      ensures r.Ok? ==> r.value == tickets[id]
      ensures r.Err? && r != Err(NotReadBack) ==> tickets == old(tickets)
      ensures tickets.Keys == old(tickets).Keys && forall other :: other in tickets && other != id ==> tickets[other] == old(tickets)[other]
      ensures r.Ok? || r == Err(NotReadBack) ==>
        var was, now := old(tickets)[id], tickets[id];
        && now.agent == (if next == Dispatched && was.agent == None && ServiceAgent in roles then Some(caller) else was.agent)
        && now.cancelReason == (if next == Cancelled && reason != "" then reason else was.cancelReason)
        && now.owner == was.owner && now.deadline == was.deadline && now.breached == was.breached
      ensures id in old(tickets) && saved ==>
        var was := old(tickets)[id];
        (r.Ok? || r == Err(NotReadBack) <==>
          if Administrator in roles then next != was.status && was.status != Closed && was.status != Cancelled
          else if ServiceAgent in roles then (was.status, next) in {(Accepted, Dispatched), (Dispatched, InService), (InService, Completed)}
          else caller == was.owner && was.status == Accepted && next == Cancelled)
      ensures r == Err(NotFound) <==> id !in old(tickets)
      ensures r == Err(Denied(Forbidden)) <==> id in old(tickets) && Administrator !in roles && ServiceAgent !in roles && caller != old(tickets)[id].owner && next != old(tickets)[id].status
    {
      if id !in tickets {
        return Err(NotFound);
      }
      var t := tickets[id];
      var denial := CheckTransition(t.status, next, caller, roles, t.owner);
      if denial.Some? {
        return Err(Denied(denial.value));
      }
      var setAgent := false;
      if next == Dispatched && t.agent.None? && ServiceAgent in roles {
        setAgent := true;
      }
      if !saved {
        return Err(NotSaved);
      }
      if next == Cancelled && reason != "" {
        tickets := tickets[id := t.(status := next, cancelReason := reason)];
      } else if setAgent {
        tickets := tickets[id := t.(status := next, agent := Some(caller))];
      } else {
        tickets := tickets[id := t.(status := next)];
      }
      return if readBack then Ok(tickets[id]) else Err(NotReadBack);
    }

    /** The tickets that the SELECT returns and that are read before its result set breaks off. */
    function Listed(at: nat, lost: nat -> bool): set<nat>
      reads this
    {
      set id | id in Due(tickets, at) && !lost(id)
    }

    /**
     * One sweep. `selectAt` and `updateAt` are what NOW() gives its two statements; the
     * result set of the first may break off, which nobody notices. Whoever is listed is
     * notified; everyone due at the second statement is flagged, if anyone was listed.
     */
    method SweepBreachesOnceWithNotify(selectAt: nat, updateAt: nat, selectOk: bool, lost: nat -> bool, updateOk: bool, notify: bool) returns (notified: seq<nat>)
      requires selectAt <= updateAt
      modifies this
      ensures tickets == if selectOk && updateOk && old(Listed(selectAt, lost)) != {} then FlagDue(old(tickets), updateAt) else old(tickets)
      ensures tickets.Keys == old(tickets).Keys
      ensures forall id :: id in tickets ==>
        var was := old(tickets)[id];
        tickets[id] == was.(breached := was.breached || (
          selectOk && updateOk && old(Listed(selectAt, lost)) != {}
          && was.deadline.Some? && was.deadline.value < updateAt && was.status in {Accepted, Dispatched, InService}))
      ensures Distinct(notified) && forall id :: id in notified <==>
        && selectOk && updateOk && notify && id in old(tickets) && !lost(id)
        && old(tickets)[id].deadline.Some? && old(tickets)[id].deadline.value < selectAt
        && !old(tickets)[id].breached && old(tickets)[id].status in {Accepted, Dispatched, InService}
      ensures selectOk && updateOk && notify ==> Lists(notified, old(Listed(selectAt, lost)))
      ensures !(selectOk && updateOk && notify) ==> notified == []
      ensures selectOk && updateOk && notify && selectAt == updateAt && (forall id :: !lost(id)) ==> Lists(notified, NewlyFlagged(old(tickets), tickets))
    {
      notified := [];
      FlaggedMeans(tickets, updateAt);
      if !selectOk {
        return;
      }
      var toBreach := SelectDue(selectAt, lost);
      ghost var listed := Listed(selectAt, lost);
      FlaggedAreDue(tickets, updateAt);
      assert (forall id :: !lost(id)) ==> listed == Due(tickets, selectAt);
      hide FlagDue, Due, IsDue, IsOpen, NewlyFlagged;
      if toBreach == [] {
        assert forall id | id in listed :: id in toBreach;
        return;
      }
      assert toBreach[0] in listed;
      if !updateOk {
        return;
      }
      tickets := FlagDue(tickets, updateAt);
      if !notify {
        return;
      }
      for i := 0 to |toBreach|
        invariant notified == toBreach[..i]
      {
        notified := notified + [toBreach[i]];
      }
    }

    /** The sweep's SELECT, as far as its result set is read. */
    method SelectDue(at: nat, lost: nat -> bool) returns (order: seq<nat>)
      ensures Lists(order, Listed(at, lost))
      ensures forall id :: id in order <==>
        && id in tickets && !lost(id) && tickets[id].deadline.Some? && tickets[id].deadline.value < at
        && !tickets[id].breached && tickets[id].status in {Accepted, Dispatched, InService}
    {
      order := [];
      ghost var listed := Listed(at, lost);
      var left := tickets.Keys;
      while left != {}
        invariant left <= tickets.Keys
        invariant Lists(order, listed - left)
        decreases left
      {
        var id :| id in left;
        ghost var was := listed - left;
        left := left - {id};
        if IsDue(tickets[id], at) && !lost(id) {
          assert listed - left == was + {id};
          order := order + [id];
        } else {
          assert listed - left == was;
        }
      }
      assert listed - left == listed;
    }
  }
}
