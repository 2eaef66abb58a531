/** Review decisions, violation records and posting freezes. Times are in seconds. */
module Freezes {
  import opened Prelude

  const FIRST_FREEZE_HOURS := 24
  const SECOND_FREEZE_HOURS := 24 * 7

  function Seconds(hours: nat): nat {
    3600 * hours
  }

  datatype ContentType = Review | QAThread | QAPost | TicketNote

  datatype Status = Pending | Approved | Rejected

  datatype Item = Item(content: ContentType, contentId: nat, status: Status)

  datatype Violation = Violation(user: nat, at: nat, hours: nat)

  /** Who wrote a piece of content does not change; content may be gone. */
  datatype State = State(
    items: map<nat, Item>,
    authors: map<(ContentType, nat), nat>,
    violations: seq<Violation>,
    freezeUntil: map<nat, nat>,
    clock: nat)

  datatype Event =
    | Tick
    | Enqueue(id: nat, content: ContentType, contentId: nat)
    | Approve(id: nat, committed: bool)
    | Reject(id: nat, committed: bool)

  function ViolationsOf(vs: seq<Violation>, user: nat): seq<Violation> {
    if vs == [] then []
    else ViolationsOf(vs[..|vs| - 1], user) + if vs[|vs| - 1].user == user then [vs[|vs| - 1]] else []
  }

  /** 24 hours for the first violation, 168 for every later one. */
  function FreezeHours(newCount: nat): nat {
    if newCount == 1 then FIRST_FREEZE_HOURS else SECOND_FREEZE_HOURS
  }

  function AuthorOf(s: State, item: Item): Option<nat> {
    if (item.content, item.contentId) in s.authors then Some(s.authors[(item.content, item.contentId)]) else None
  }

  function Rejection(s: State, id: nat, author: nat): State
    requires id in s.items
  {
    var hours := FreezeHours(|ViolationsOf(s.violations, author)| + 1);
    s.(items := s.items[id := s.items[id].(status := Rejected)],
       violations := s.violations + [Violation(author, s.clock, hours)],
       freezeUntil := s.freezeUntil[author := s.clock + Seconds(hours)])
  }

  function Apply(s: State, e: Event): State {
    match e
    case Tick => s.(clock := s.clock + 1)
    case Enqueue(id, content, contentId) =>
      if id in s.items then s else s.(items := s.items[id := Item(content, contentId, Pending)])
    case Approve(id, committed) =>
      if id !in s.items || s.items[id].status != Pending || !committed then s
      else s.(items := s.items[id := s.items[id].(status := Approved)])
    case Reject(id, committed) =>
      if id !in s.items || s.items[id].status != Pending || AuthorOf(s, s.items[id]).None? || !committed then s
      else Rejection(s, id, AuthorOf(s, s.items[id]).value)
  }

  function Exec(s: State, es: seq<Event>): State {
    if es == [] then s else Apply(Exec(s, es[..|es| - 1]), es[|es| - 1])
  }

  predicate Initial(s: State) {
    s.items == map[] && s.violations == [] && s.freezeUntil == map[]
  }

  lemma StepKeepsDecision(s: State, e: Event, id: nat)
    requires id in s.items
    ensures id in Apply(s, e).items
    ensures s.items[id].status != Pending ==> Apply(s, e).items[id] == s.items[id]
    ensures Apply(s, e).items[id] == s.items[id].(status := Apply(s, e).items[id].status)
  {
  }

  /** A decided item is never decided again, either way. */
  lemma {:induction false} DecidedOnce(s: State, es: seq<Event>, n: nat, id: nat)
    requires n <= |es| && id in Exec(s, es[..n]).items && Exec(s, es[..n]).items[id].status != Pending
    ensures id in Exec(s, es).items && Exec(s, es).items[id] == Exec(s, es[..n]).items[id]
  {
    if n == |es| {
      assert es[..n] == es;
    } else {
      var front := es[..|es| - 1];
      assert front[..n] == es[..n];
      DecidedOnce(s, front, n, id);
      StepKeepsDecision(Exec(s, front), es[|es| - 1], id);
    }
  }

  // ------------------------------------------------------------ violation count

  /** The rejected items that `user` wrote. */
  function RejectedBy(s: State, user: nat): set<nat> {
    set id | id in s.items && s.items[id].status == Rejected && AuthorOf(s, s.items[id]) == Some(user)
  }

  lemma ViolationsSnoc(vs: seq<Violation>, v: Violation, user: nat)
    ensures ViolationsOf(vs + [v], user) == ViolationsOf(vs, user) + if v.user == user then [v] else []
  {
    assert (vs + [v])[..|vs|] == vs;
  }

  lemma {:induction false} NoneBefore(vs: seq<Violation>, user: nat)
    ensures |ViolationsOf(vs, user)| > 0 <==> exists i :: 0 <= i < |vs| && vs[i].user == user
  {
    if vs != [] {
      var front := vs[..|vs| - 1];
      NoneBefore(front, user);
      if i :| 0 <= i < |vs| && vs[i].user == user {
        if i < |front| {
          assert front[i].user == user;
        }
      }
      if i :| 0 <= i < |front| && front[i].user == user {
        assert vs[i].user == user;
      }
    }
  }

  lemma RejectionCounts(s: State, id: nat, author: nat, user: nat)
    requires id in s.items && s.items[id].status != Rejected && AuthorOf(s, s.items[id]) == Some(author)
    ensures RejectedBy(Rejection(s, id, author), user) == RejectedBy(s, user) + if author == user then {id} else {}
    ensures id !in RejectedBy(s, user)
  {
  }

  lemma OthersReject(s: State, e: Event, user: nat)
    requires !e.Reject? || Apply(s, e) == s
    ensures RejectedBy(Apply(s, e), user) == RejectedBy(s, user) && Apply(s, e).violations == s.violations
  {
  }

  lemma StepCounts(s: State, e: Event, user: nat)
    requires |ViolationsOf(s.violations, user)| == |RejectedBy(s, user)|
    ensures |ViolationsOf(Apply(s, e).violations, user)| == |RejectedBy(Apply(s, e), user)|
  {
    hide ViolationsOf, FreezeHours, Seconds, RejectedBy;
    var t := Apply(s, e);
    if e.Reject? && t != s {
      var author := AuthorOf(s, s.items[e.id]).value;
      ViolationsSnoc(s.violations, t.violations[|s.violations|], user);
      RejectionCounts(s, e.id, author, user);
    } else {
      OthersReject(s, e, user);
    }
  }

  /** An author has one violation record per rejected item of theirs. */
  lemma {:induction false} ViolationsAreRejections(s: State, es: seq<Event>, user: nat)
    requires Initial(s)
    ensures |ViolationsOf(Exec(s, es).violations, user)| == |RejectedBy(Exec(s, es), user)|
  {
    if es != [] {
      ViolationsAreRejections(s, es[..|es| - 1], user);
      StepCounts(Exec(s, es[..|es| - 1]), es[|es| - 1], user);
    }
  }

  // -------------------------------------------------------------------- freezes

  /** Hours follow the escalation, times are in order up to `now`, and the deadline is that of the latest violation. */
  ghost predicate Escalates(vs: seq<Violation>, now: nat, deadline: Option<nat>) {
    && (forall k :: 0 <= k < |vs| ==> vs[k].hours == FreezeHours(k + 1) && vs[k].at <= now)
    && (forall k, l :: 0 <= k < l < |vs| ==> vs[k].at <= vs[l].at)
    && deadline == if vs == [] then None else Some(vs[|vs| - 1].at + Seconds(vs[|vs| - 1].hours))
  }

  function Deadline(s: State, user: nat): Option<nat> {
    if user in s.freezeUntil then Some(s.freezeUntil[user]) else None
  }

  ghost predicate Escalating(s: State, user: nat) {
    Escalates(ViolationsOf(s.violations, user), s.clock, Deadline(s, user))
  }

  /** One more violation, now: the deadline moves to its end and not to an earlier time. */
  lemma OneMore(vs: seq<Violation>, now: nat, deadline: Option<nat>, v: Violation)
    requires Escalates(vs, now, deadline) && v.at == now && v.hours == FreezeHours(|vs| + 1)
    ensures Escalates(vs + [v], now, Some(now + Seconds(v.hours)))
    ensures deadline.Some? ==> deadline.value <= now + Seconds(v.hours)
  {
  }

  lemma RejectionEscalates(s: State, id: nat, author: nat, user: nat)
    requires id in s.items && Escalating(s, user)
    ensures Escalating(Rejection(s, id, author), user)
    ensures Deadline(s, user).Some? ==> Deadline(Rejection(s, id, author), user).Some?
    ensures Deadline(s, user).Some? ==> Deadline(s, user).value <= Deadline(Rejection(s, id, author), user).value
  {
    hide Escalates, ViolationsOf, FreezeHours, Seconds;
    var vs := ViolationsOf(s.violations, author);
    var v := Violation(author, s.clock, FreezeHours(|vs| + 1));
    var us := ViolationsOf(s.violations, user);
    var t := Rejection(s, id, author);
    ViolationsSnoc(s.violations, v, user);
    assert t.violations == s.violations + [v];
    if user == author {
      assert ViolationsOf(t.violations, user) == us + [v];
      assert Deadline(t, user) == Some(s.clock + Seconds(v.hours));
      OneMore(us, s.clock, Deadline(s, user), v);
    } else {
      assert ViolationsOf(t.violations, user) == us;
      assert Deadline(t, user) == Deadline(s, user);
    }
  }

  lemma StepEscalates(s: State, e: Event, user: nat)
    requires Escalating(s, user)
    ensures Escalating(Apply(s, e), user)
    ensures user in s.freezeUntil ==> user in Apply(s, e).freezeUntil && s.freezeUntil[user] <= Apply(s, e).freezeUntil[user]
  {
    var t := Apply(s, e);
    if e.Reject? && t != s {
      RejectionEscalates(s, e.id, AuthorOf(s, s.items[e.id]).value, user);
    } else {
      assert t.violations == s.violations && t.freezeUntil == s.freezeUntil;
    }
  }

  lemma {:induction false} ExecEscalates(s: State, es: seq<Event>, user: nat)
    requires Initial(s)
    ensures Escalating(Exec(s, es), user)
  {
    if es != [] {
      ExecEscalates(s, es[..|es| - 1], user);
      StepEscalates(Exec(s, es[..|es| - 1]), es[|es| - 1], user);
    }
  }

  /** A freeze deadline never moves to an earlier time. */
  lemma {:induction false} DeadlineNeverEarlier(s: State, es: seq<Event>, n: nat, user: nat)
    requires Initial(s) && n <= |es| && user in Exec(s, es[..n]).freezeUntil
    ensures user in Exec(s, es).freezeUntil && Exec(s, es[..n]).freezeUntil[user] <= Exec(s, es).freezeUntil[user]
  {
    if n == |es| {
      assert es[..n] == es;
    } else {
      var front := es[..|es| - 1];
      assert front[..n] == es[..n];
      DeadlineNeverEarlier(s, front, n, user);
      ExecEscalates(s, front, user);
      StepEscalates(Exec(s, front), es[|es| - 1], user);
    }
  }

  /** IsUserFrozen: the deadline while it lies ahead. */
  function FrozenUntil(s: State, user: nat, now: nat): Option<nat> {
    if user in s.freezeUntil && now < s.freezeUntil[user] then Some(s.freezeUntil[user]) else None
  }

  /** The freeze of violation `k` of a user, of 24 hours for the first and 168 for a later one, has not ended. */
  predicate StillRuns(vs: seq<Violation>, k: nat, now: nat)
    requires k < |vs|
  {
    now < vs[k].at + 3600 * if k == 0 then 24 else 168
  }

  ghost predicate SomeRuns(vs: seq<Violation>, now: nat) {
    exists k: nat :: k < |vs| && StillRuns(vs, k, now)
  }

  /** A user is frozen exactly while some violation's own freeze, 24 hours for the first and 168 for any later one, still runs. */
  lemma FrozenExactly(s: State, es: seq<Event>, user: nat, now: nat)
    requires Initial(s)
    ensures var t := Exec(s, es);
      var vs := ViolationsOf(t.violations, user);
      && (FrozenUntil(t, user, now).Some? <==> SomeRuns(vs, now))
      && (FrozenUntil(t, user, now).Some? ==> vs != [] && FrozenUntil(t, user, now).value == vs[|vs| - 1].at + 3600 * if |vs| == 1 then 24 else 168)
      && (forall k :: 0 <= k < |vs| ==> vs[k].hours == if k == 0 then 24 else 168)
  {
    hide Exec, Escalates, ViolationsOf, SomeRuns;
    ExecEscalates(s, es, user);
    var t := Exec(s, es);
    var vs := ViolationsOf(t.violations, user);
    FrozenBy(vs, t.clock, Deadline(t, user), now);
  }

  lemma FrozenBy(vs: seq<Violation>, clock: nat, deadline: Option<nat>, now: nat)
    requires Escalates(vs, clock, deadline)
    ensures deadline.Some? && now < deadline.value <==> SomeRuns(vs, now)
    ensures forall k :: 0 <= k < |vs| ==> vs[k].hours == if k == 0 then 24 else 168
    ensures deadline.Some? ==> vs != [] && deadline.value == vs[|vs| - 1].at + 3600 * if |vs| == 1 then 24 else 168
  {
    assert vs != [] ==> vs[|vs| - 1].hours == if |vs| == 1 then 24 else 168;
    if deadline.Some? && now < deadline.value {
      var k := |vs| - 1;
      assert StillRuns(vs, k, now);
    }
  }

  // ------------------------------------------------------------ the service

  datatype ReviewError = NotFound | AlreadyReviewed | NoAuthor | NotCommitted | NotReadBack

  class Service {
    var items: map<nat, Item>
    var authors: map<(ContentType, nat), nat>
    var violations: seq<Violation>
    var freezeUntil: map<nat, nat>
    var clock: nat

    ghost function Tables(): State
      reads this
    {
      State(items, authors, violations, freezeUntil, clock)
    }

    /** ApproveItem: one transaction; when only reading the item back fails, an error is reported on a decided item. */
    method ApproveItem(id: nat, committed: bool, readBack: bool) returns (r: Result<Item, ReviewError>)
      modifies this
      ensures Tables() == Apply(old(Tables()), Approve(id, committed))
      ensures r.Ok? || r == Err(NotReadBack) <==> id in old(items) && old(items)[id].status == Pending && committed
      ensures r.Ok? || r == Err(NotReadBack) ==> (r.Ok? <==> readBack) && id in items && items[id].status == Approved
      ensures r.Ok? || r == Err(NotReadBack) ==> Tables() == old(Tables()).(items := old(items)[id := Item(old(items)[id].content, old(items)[id].contentId, Approved)])
      ensures r.Ok? ==> r.value == items[id]
      ensures r == Err(NotFound) <==> id !in old(items)
      ensures r == Err(AlreadyReviewed) <==> id in old(items) && old(items)[id].status != Pending
      ensures r.Err? && r != Err(NotReadBack) ==> Tables() == old(Tables())
    {
      if id !in items {
        return Err(NotFound);
      }
      if items[id].status != Pending {
        return Err(AlreadyReviewed);
      }
      if !committed {
        return Err(NotCommitted);
      }
      items := items[id := items[id].(status := Approved)];
      return if readBack then Ok(items[id]) else Err(NotReadBack);
    }

    /** SELECT COUNT(*) over the violation records of a user. */
    method CountViolations(user: nat) returns (count: nat)
      ensures count == |ViolationsOf(violations, user)|
    {
      count := 0;
      for i := 0 to |violations|
        invariant count == |ViolationsOf(violations[..i], user)|
      {
        assert violations[..i + 1] == violations[..i] + [violations[i]];
        ViolationsSnoc(violations[..i], violations[i], user);
        if violations[i].user == user {
          count := count + 1;
        }
      }
      assert violations[..|violations|] == violations;
    }

    /**
     * RejectItem: one transaction that decides the item, records the violation and sets
     * the freeze. When only reading the item back fails, an error is reported after all
     * of it was done.
     */
    method RejectItem(id: nat, committed: bool, readBack: bool) returns (r: Result<nat, ReviewError>)
      modifies this
      ensures Tables() == Apply(old(Tables()), Reject(id, committed))
      ensures r.Ok? || r == Err(NotReadBack) <==>
        id in old(items) && old(items)[id].status == Pending && AuthorOf(old(Tables()), old(items)[id]).Some? && committed
      ensures r.Ok? || r == Err(NotReadBack) ==> (r.Ok? <==> readBack) && id in items && items[id].status == Rejected
      ensures r.Ok? || r == Err(NotReadBack) ==>
        var key := (old(items)[id].content, old(items)[id].contentId);
        && key in authors && authors == old(authors) && clock == old(clock)
        && var author := authors[key];
        var hours := if exists i :: 0 <= i < |old(violations)| && old(violations)[i].user == author then 168 else 24;
        && items == old(items)[id := Item(key.0, key.1, Rejected)]
        && violations == old(violations) + [Violation(author, clock, hours)]
        && freezeUntil == old(freezeUntil)[author := clock + 3600 * hours]
        && (r.Ok? ==> r.value == clock + 3600 * hours)
      ensures r.Ok? ==> id in items && AuthorOf(Tables(), items[id]).Some?
      ensures r.Ok? ==> FrozenUntil(Tables(), AuthorOf(Tables(), items[id]).value, clock) == Some(r.value)
      ensures r == Err(NotFound) <==> id !in old(items)
      ensures r == Err(AlreadyReviewed) <==> id in old(items) && old(items)[id].status != Pending
      ensures r == Err(NoAuthor) <==> id in old(items) && old(items)[id].status == Pending && (old(items)[id].content, old(items)[id].contentId) !in authors
      ensures r.Err? && r != Err(NotReadBack) ==> Tables() == old(Tables())
    {
      if id !in items {
        return Err(NotFound);
      }
      var it := items[id];
      if it.status != Pending {
        return Err(AlreadyReviewed);
      }
      if (it.content, it.contentId) !in authors {
        return Err(NoAuthor);
      }
      var author := authors[(it.content, it.contentId)];
      if !committed {
        return Err(NotCommitted);
      }
      items := items[id := it.(status := Rejected)];
      var priorCount := CountViolations(author);
      NoneBefore(violations, author);
      var newCount := priorCount + 1;
      var freezeHours;
      if newCount == 1 {
        freezeHours := FIRST_FREEZE_HOURS;
      } else {
        freezeHours := SECOND_FREEZE_HOURS;
      }
      var until := clock + Seconds(freezeHours);
      freezeUntil := freezeUntil[author := until];
      violations := violations + [Violation(author, clock, freezeHours)];
      return if readBack then Ok(until) else Err(NotReadBack);
    }
  }
}
