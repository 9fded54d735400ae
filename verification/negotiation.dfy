/**
 The management client's negotiation of a task id (`management/taskdep/taskdep.cc`,
 `create_neogiate_task` and its repeater) against the storage server.

 The network and the other parties are a script: before each attempt other steps may run at the
 storage server; then the request is lost, or its reply is lost, or both arrive, or a stray reply does.
 */
module Negotiation {
  import opened Prelude
  import opened Storage

  /** What happens to an attempt.  A stray reply has another type, another id or nothing to go on with;
      `served` says whether the request reached the server all the same. */
  datatype Net = LostRequest | LostReply | Delivered | StrayReply(served: bool)

  /** One attempt: the steps of others before it, the random alternative the server would offer. */
  datatype Attempt = Attempt(others: seq<Event>, net: Net, alternative: U64)

  /** How a call ends.  `StillTrying` when the script is over first; `before` is the store the
      accepted request met. */
  datatype Outcome =
    | Returned(id: U64)
    | Accepted(id: U64, before: Store, alternative: U64)
    | StillTrying(id: U64)

  /** An accepted request: its id, and how many attempts were left when it was sent, its own included. */
  datatype Grant = Grant(id: U64, left: nat)

  /** `first` is the request of `create_neogiate_task` itself; later ones come from the repeater.
      The grants are this client's own accepted requests, in order. */
  function Client(st: Store, id: U64, engine: Engine, script: seq<Attempt>, first: bool): (Store, Outcome, seq<Grant>)
    decreases script
  {
    if script == [] then (st, StillTrying(id), [])
    else
      var a := script[0];
      var st1 := Run(st, a.others);
      var (st2, reply) := Negotiate(st1, id, engine, a.alternative);
      var mine := if reply == Succeed then [Grant(id, |script|)] else [];
      match a.net
      case StrayReply(served) => if served then (st2, Returned(0), mine) else (st1, Returned(0), [])
      case LostRequest =>
        if first then (st1, Returned(0), []) else Client(st1, id, engine, script[1..], false)
      case LostReply =>
        if first then (st2, Returned(0), mine)
        else
          var (st3, out, ids) := Client(st2, id, engine, script[1..], false);
          (st3, out, mine + ids)
      case Delivered =>
        match reply
        case Succeed => (st2, Accepted(id, st1, a.alternative), mine)
        case Conflict(alt) => Client(st2, alt, engine, script[1..], false)
  }

  /** The value the call returns: a task id, or 0. */
  function Value(out: Outcome): Option<U64> {
    match out case Returned(id) => Some(id) case Accepted(id, _, _) => Some(id) case StillTrying(_) => None
  }

  /** The steps of others, one by one, at the server. */
  method Others(storage: Datamanager, events: seq<Event>)
    modifies storage
    ensures storage.Value() == Run(old(storage.Value()), events)
  {
    for i := 0 to |events|
      invariant storage.Value() == Run(old(storage.Value()), events[..i])
    {
      assert events[..i + 1][..i] == events[..i];
      match events[i] {
        case NegotiateEv(id, engine, alt) => var reply := storage.ProcessNegotiate(id, engine, alt);
        case ReleaseEv(id) => storage.ProcessRelease(id);
        case PushEv(mid, name, data) => var rc := storage.PushEngine(mid, name, data);
        case PullEv(id, mid, name) => var pulled := storage.ProcessPull(id, mid, name);
      }
    }
    assert events[..|events|] == events;
  }

  /** `create_neogiate_task`; `done` is false when the script ends before the call does. */
  method CreateNegotiateTask(storage: Datamanager, taskid_: U64, engine: Engine, script: seq<Attempt>)
    returns (result: U64, done: bool)
    modifies storage
    ensures var (st, out, _) := Client(old(storage.Value()), taskid_, engine, script, true);
            storage.Value() == st && (if done then Some(result) else None) == Value(out)
  {
    var taskid, success := taskid_, false;
    result := 0;
    var i := 0;
    while i < |script|
      invariant 0 <= i <= |script|
      invariant var now := Client(storage.Value(), taskid, engine, script[i..], i == 0);
                var all := Client(old(storage.Value()), taskid_, engine, script, true);
                now.0 == all.0 && Value(now.1) == Value(all.1)
    {
      var a := script[i];
      assert script[i..][0] == a && script[i..][1..] == script[i + 1..];
      Others(storage, a.others);
      if a.net == LostRequest {
        if i == 0 { return 0, true; }
      } else {
        var reply := Succeed;
        if a.net != StrayReply(false) { reply := storage.ProcessNegotiate(taskid, engine, a.alternative); }
        if a.net.StrayReply? { return 0, true; }
        if a.net == LostReply {
          if i == 0 { return 0, true; }
        } else {
          match reply {
            case Succeed => return taskid, true;
            case Conflict(alt) => taskid := alt;
          }
        }
      }
      i := i + 1;
    }
    done := false;
  }

  /** Whatever was lost and whoever else was served: a nonzero id is returned only by an accepted
      request, for an id that was free just before it and is bound to the given engine just after. */
  lemma {:induction false} ReturnedIdIsBound(st: Store, id: U64, engine: Engine, script: seq<Attempt>, first: bool)
    ensures var (st', out, ids) := Client(st, id, engine, script, first);
            match out
            case Returned(r) => r == 0
            case StillTrying(_) => true
            case Accepted(r, before, alt) =>
              && r !in before.bound && Negotiate(before, r, engine, alt) == (st', Succeed)
              && r in st'.bound && st'.bound[r] == BindingFor(r, engine)
              && ids != [] && ids[|ids| - 1].id == r
    decreases script
  {
    if script != [] {
      hide BindingFor, Stored, Run;
      var a := script[0];
      var st1 := Run(st, a.others);
      var (st2, reply) := Negotiate(st1, id, engine, a.alternative);
      match a.net {
        case StrayReply(_) =>
        case LostRequest => if !first { ReturnedIdIsBound(st1, id, engine, script[1..], false); }
        case LostReply => if !first { ReturnedIdIsBound(st2, id, engine, script[1..], false); }
        case Delivered =>
          if reply.Conflict? { ReturnedIdIsBound(st2, reply.alternative, engine, script[1..], false); }
      }
    }
  }

  // ---------- what a call binds ----------

  /** Others terminate or finish the task before one of the attempts `from..to`. */
  ghost predicate ReleasedIn(script: seq<Attempt>, from: int, to: int, id: U64) {
    exists k :: 0 <= k < |script| && from <= k < to && ReleaseEv(id) in script[k].others
  }

  ghost predicate NegotiatedIn(script: seq<Attempt>, id: U64) {
    exists k :: 0 <= k < |script| && NegotiatedBy(script[k].others, id)
  }

  ghost predicate NegotiatedBy(events: seq<Event>, id: U64) {
    exists e :: e in events && e.NegotiateEv? && e.id == id
  }

  /** Ids bound before stay bound as they were, unless others release them. */
  ghost predicate KeepsBound(st: Store, st': Store, script: seq<Attempt>) {
    forall x :: x in st.bound && !ReleasedIn(script, 0, |script|, x) ==> x in st'.bound && st'.bound[x] == st.bound[x]
  }

  /** A granted id was not bound before, or was released before its request. */
  ghost predicate GrantsNew(st: Store, script: seq<Attempt>, gs: seq<Grant>) {
    forall g :: g in gs && g.id in st.bound ==> ReleasedIn(script, 0, |script| - g.left + 1, g.id)
  }

  /** An id granted twice was released between the two requests. */
  ghost predicate GrantsDistinct(script: seq<Attempt>, gs: seq<Grant>) {
    forall i, j :: 0 <= i < j < |gs| && gs[i].id == gs[j].id ==>
      ReleasedIn(script, |script| - gs[i].left + 1, |script| - gs[j].left + 1, gs[i].id)
  }

  /** A granted id is bound to the engine at the end, unless it was released after its request. */
  ghost predicate GrantsLast(st': Store, engine: Engine, script: seq<Attempt>, gs: seq<Grant>) {
    forall g :: g in gs && !ReleasedIn(script, |script| - g.left + 1, |script|, g.id) ==>
      g.id in st'.bound && st'.bound[g.id] == BindingFor(g.id, engine)
  }

  /** Nobody else is bound at the end: an id was bound before, granted, or negotiated by others. */
  ghost predicate OnlyThese(st: Store, st': Store, script: seq<Attempt>, gs: seq<Grant>) {
    forall x :: x in st'.bound ==> x in st.bound || (exists g :: g in gs && g.id == x) || NegotiatedIn(script, x)
  }

  ghost predicate InRange(script: seq<Attempt>, gs: seq<Grant>) {
    forall g :: g in gs ==> 1 <= g.left <= |script|
  }

  ghost predicate Account(st: Store, st': Store, engine: Engine, script: seq<Attempt>, gs: seq<Grant>) {
    && KeepsBound(st, st', script) && InRange(script, gs) && GrantsNew(st, script, gs) && GrantsDistinct(script, gs)
    && GrantsLast(st', engine, script, gs) && OnlyThese(st, st', script, gs)
  }

  lemma ReleasedLater(script: seq<Attempt>, from: int, to: int, id: U64)
    requires script != []
    ensures ReleasedIn(script[1..], from, to, id) ==> ReleasedIn(script, from + 1, to + 1, id)
  {
    if ReleasedIn(script[1..], from, to, id) {
      var k :| 0 <= k < |script[1..]| && from <= k < to && ReleaseEv(id) in script[1..][k].others;
      assert script[k + 1] == script[1..][k];
    }
  }

  lemma ReleasedAtOnce(script: seq<Attempt>, to: int, id: U64)
    requires script != [] && ReleaseEv(id) in script[0].others && to >= 1
    ensures ReleasedIn(script, 0, to, id)
  {
  }

  lemma ReleasedWithin(script: seq<Attempt>, from: int, from': int, to: int, id: U64)
    requires ReleasedIn(script, from, to, id) && from' <= from
    ensures ReleasedIn(script, from', to, id)
  {
  }

  lemma NegotiatedLater(script: seq<Attempt>, id: U64)
    requires script != []
    ensures NegotiatedIn(script[1..], id) ==> NegotiatedIn(script, id)
    ensures NegotiatedBy(script[0].others, id) ==> NegotiatedIn(script, id)
  {
    if NegotiatedIn(script[1..], id) {
      var k :| 0 <= k < |script[1..]| && NegotiatedBy(script[1..][k].others, id);
      assert script[k + 1] == script[1..][k];
    }
  }

  /** What the steps of others and then at most one grant to this client make of the bindings. */
  ghost predicate Linked(st: Store, mid: Store, engine: Engine, others: seq<Event>, granted: Option<U64>) {
    && (forall x :: x in st.bound && ReleaseEv(x) !in others ==> x in mid.bound && mid.bound[x] == st.bound[x])
    && (forall x :: x in mid.bound ==> x in st.bound || NegotiatedBy(others, x) || granted == Some(x))
    && (granted.Some? ==>
          && granted.value in mid.bound && mid.bound[granted.value] == BindingFor(granted.value, engine)
          && (granted.value in st.bound ==> ReleaseEv(granted.value) in others))
  }

  function Granted(granted: Option<U64>, script: seq<Attempt>): seq<Grant> {
    match granted case None => [] case Some(id) => [Grant(id, |script|)]
  }

  lemma StepKeepsBound(st: Store, mid: Store, st': Store, engine: Engine, script: seq<Attempt>, granted: Option<U64>)
    requires script != [] && Linked(st, mid, engine, script[0].others, granted) && KeepsBound(mid, st', script[1..])
    ensures KeepsBound(st, st', script)
  {
    hide ReleasedIn;
    var n := |script|;
    forall x | x in st.bound && !ReleasedIn(script, 0, n, x) ensures x in st'.bound && st'.bound[x] == st.bound[x] {
      if ReleaseEv(x) in script[0].others { ReleasedAtOnce(script, n, x); }
      ReleasedLater(script, 0, n - 1, x);
      if ReleasedIn(script[1..], 0, n - 1, x) { ReleasedWithin(script, 1, 0, n, x); }
    }
  }

  lemma StepGrantsNew(st: Store, mid: Store, engine: Engine, script: seq<Attempt>, granted: Option<U64>, gs: seq<Grant>)
    requires script != [] && Linked(st, mid, engine, script[0].others, granted)
    requires GrantsNew(mid, script[1..], gs) && InRange(script[1..], gs)
    ensures GrantsNew(st, script, Granted(granted, script) + gs) && InRange(script, Granted(granted, script) + gs)
  {
    hide ReleasedIn, Granted;
    var n := |script|;
    GrantedIs(granted, script);
    forall g | g in Granted(granted, script) + gs && g.id in st.bound
      ensures ReleasedIn(script, 0, n - g.left + 1, g.id)
    {
      if g in gs {
        if ReleaseEv(g.id) in script[0].others {
          ReleasedAtOnce(script, n - g.left + 1, g.id);
        } else {
          ReleasedLater(script, 0, n - 1 - g.left + 1, g.id);
          ReleasedWithin(script, 1, 0, n - g.left + 1, g.id);
        }
      } else {
        ReleasedAtOnce(script, 1, g.id);
      }
    }
  }

  lemma GrantedIs(granted: Option<U64>, script: seq<Attempt>)
    ensures forall g :: g in Granted(granted, script) <==> granted == Some(g.id) && g.left == |script|
    ensures |Granted(granted, script)| <= 1
  {
  }

  lemma StepGrantsDistinct(mid: Store, script: seq<Attempt>, granted: Option<U64>, gs: seq<Grant>)
    requires script != [] && GrantsDistinct(script[1..], gs) && GrantsNew(mid, script[1..], gs)
    requires granted.Some? ==> granted.value in mid.bound
    ensures GrantsDistinct(script, Granted(granted, script) + gs)
  {
    hide ReleasedIn;
    var n, all := |script|, Granted(granted, script) + gs;
    forall i, j | 0 <= i < j < |all| && all[i].id == all[j].id
      ensures ReleasedIn(script, n - all[i].left + 1, n - all[j].left + 1, all[i].id)
    {
      var d := |all| - |gs|;
      assert all[j] == gs[j - d];
      if i < d {
        assert gs[j - d] in gs;
        ReleasedLater(script, 0, n - 1 - all[j].left + 1, all[i].id);
      } else {
        assert all[i] == gs[i - d];
        ReleasedLater(script, n - 1 - all[i].left + 1, n - 1 - all[j].left + 1, all[i].id);
      }
    }
  }

  lemma StepGrantsLast(
    mid: Store, st': Store, engine: Engine, script: seq<Attempt>, granted: Option<U64>, gs: seq<Grant>)
    requires script != [] && GrantsLast(st', engine, script[1..], gs) && KeepsBound(mid, st', script[1..])
    requires granted.Some? ==>
               granted.value in mid.bound && mid.bound[granted.value] == BindingFor(granted.value, engine)
    ensures GrantsLast(st', engine, script, Granted(granted, script) + gs)
  {
    hide ReleasedIn, Granted, BindingFor;
    var n := |script|;
    GrantedIs(granted, script);
    forall g | g in Granted(granted, script) + gs && !ReleasedIn(script, n - g.left + 1, n, g.id)
      ensures g.id in st'.bound && st'.bound[g.id] == BindingFor(g.id, engine)
    {
      if g in gs {
        ReleasedLater(script, n - 1 - g.left + 1, n - 1, g.id);
      } else {
        ReleasedLater(script, 0, n - 1, g.id);
      }
    }
  }

  lemma StepOnlyThese(
    st: Store, mid: Store, st': Store, engine: Engine, script: seq<Attempt>, granted: Option<U64>, gs: seq<Grant>)
    requires script != [] && Linked(st, mid, engine, script[0].others, granted) && OnlyThese(mid, st', script[1..], gs)
    ensures OnlyThese(st, st', script, Granted(granted, script) + gs)
  {
    hide NegotiatedIn, NegotiatedBy, Granted;
    GrantedIs(granted, script);
    var all := Granted(granted, script) + gs;
    forall x | x in st'.bound ensures x in st.bound || (exists g :: g in all && g.id == x) || NegotiatedIn(script, x) {
      NegotiatedLater(script, x);
      if x in mid.bound {
        if granted == Some(x) { assert Grant(x, |script|) in all; }
      } else if g :| g in gs && g.id == x {
        assert g in all;
      }
    }
  }

  lemma AccountStep(
    st: Store, mid: Store, st': Store, engine: Engine, script: seq<Attempt>, granted: Option<U64>, gs: seq<Grant>)
    requires script != [] && Linked(st, mid, engine, script[0].others, granted)
    requires Account(mid, st', engine, script[1..], gs)
    ensures Account(st, st', engine, script, Granted(granted, script) + gs)
  {
    StepKeepsBound(st, mid, st', engine, script, granted);
    StepGrantsNew(st, mid, engine, script, granted, gs);
    StepGrantsDistinct(mid, script, granted, gs);
    StepGrantsLast(mid, st', engine, script, granted, gs);
    StepOnlyThese(st, mid, st', engine, script, granted, gs);
    hide GrantsNew, GrantsDistinct, GrantsLast, OnlyThese, KeepsBound, Granted, InRange;
  }

  lemma NegotiateBinds(st: Store, id: U64, engine: Engine, alt: U64)
    requires Negotiate(st, id, engine, alt).1 == Succeed
    ensures id !in st.bound && Negotiate(st, id, engine, alt).0.bound == st.bound[id := BindingFor(id, engine)]
  {
  }

  /** The steps of others, and then the request if it reaches the server. */
  lemma AttemptLinks(st: Store, id: U64, engine: Engine, a: Attempt)
    ensures var st1 := Run(st, a.others);
            var (st2, reply) := Negotiate(st1, id, engine, a.alternative);
            && Linked(st, st1, engine, a.others, None)
            && (reply != Succeed ==> st2 == st1)
            && (reply == Succeed ==> Linked(st, st2, engine, a.others, Some(id)))
  {
    hide BindingFor, Stored, Run;
    var st1 := Run(st, a.others);
    forall x | x in st.bound && ReleaseEv(x) !in a.others ensures x in st1.bound && st1.bound[x] == st.bound[x] {
      BoundUntilReleased(st, a.others, x);
    }
    forall x | x in st1.bound ensures x in st.bound || NegotiatedBy(a.others, x) {
      BoundOrNegotiated(st, a.others, x);
    }
    var (st2, reply) := Negotiate(st1, id, engine, a.alternative);
    if reply == Succeed {
      NegotiateBinds(st1, id, engine, a.alternative);
      assert id in st.bound ==> ReleaseEv(id) in a.others;
      hide Negotiate;
      forall x | x in st2.bound ensures x in st.bound || NegotiatedBy(a.others, x) || x == id {
        if x != id { assert x in st1.bound; }
      }
    }
  }

  lemma NothingGranted(st: Store, engine: Engine, script: seq<Attempt>)
    ensures Account(st, st, engine, script, [])
  {
  }

  /** Whatever others do meanwhile, what a call's own requests bind is accounted for: every granted id
      was unbound before its request, so that an id known before or granted twice was released in
      between; it is bound to the engine afterwards unless it was released; ids bound before stay
      as they were unless released; and nobody else is bound but by others. */
  lemma {:induction false} WhatACallBinds(st: Store, id: U64, engine: Engine, script: seq<Attempt>, first: bool)
    ensures var (st', out, gs) := Client(st, id, engine, script, first);
            Account(st, st', engine, script, gs)
    decreases script
  {
    hide Account, Linked, Negotiate;
    if script == [] {
      NothingGranted(st, engine, []);
    } else {
      var a := script[0];
      var st1 := Run(st, a.others);
      var (st2, reply) := Negotiate(st1, id, engine, a.alternative);
      var granted := if reply == Succeed then Some(id) else None;
      AttemptLinks(st, id, engine, a);
      var served := a.net != LostRequest && a.net != StrayReply(false);
      var mid, mine := if served then st2 else st1, if served then granted else None;
      assert Linked(st, mid, engine, a.others, mine);
      var goesOn := (a.net == LostRequest && !first) || (a.net == LostReply && !first) || (a.net == Delivered && reply.Conflict?);
      if goesOn {
        var next := if a.net == Delivered then reply.alternative else id;
        WhatACallBinds(mid, next, engine, script[1..], false);
        var (st', out, gs) := Client(mid, next, engine, script[1..], false);
        AccountStep(st, mid, st', engine, script, mine, gs);
        assert Granted(None, script) + gs == gs;
      } else {
        NothingGranted(mid, engine, script[1..]);
        AccountStep(st, mid, mid, engine, script, mine, []);
        assert Granted(mine, script) + [] == Granted(mine, script);
      }
    }
  }

  function Ids(gs: seq<Grant>): set<U64> { set g | g in gs :: g.id }

  lemma NobodyReleases(script: seq<Attempt>, from: int, to: int, id: U64)
    requires forall a :: a in script ==> a.others == []
    ensures !ReleasedIn(script, from, to, id) && !NegotiatedIn(script, id)
  {
    forall k | 0 <= k < |script| ensures script[k].others == [] { assert script[k] in script; }
  }

  /** With nobody else at work a call binds exactly the ids it was granted, each once: the id returned,
      and one more for every accepted request whose reply was lost. */
  lemma AloneACallBinds(st: Store, id: U64, engine: Engine, script: seq<Attempt>, first: bool)
    requires forall a :: a in script ==> a.others == []
    ensures var (st', out, gs) := Client(st, id, engine, script, first);
            && st'.bound.Keys == st.bound.Keys + Ids(gs)
            && (forall i :: 0 <= i < |gs| ==> gs[i].id !in st.bound)
            && (forall i, j :: 0 <= i < j < |gs| ==> gs[i].id != gs[j].id)
  {
    WhatACallBinds(st, id, engine, script, first);
    hide Client, ReleasedIn, NegotiatedIn;
    var (st', out, gs) := Client(st, id, engine, script, first);
    forall from: int, to: int, x: U64 ensures !ReleasedIn(script, from, to, x) {
      NobodyReleases(script, from, to, x);
    }
    forall x: U64 ensures x in st'.bound <==> x in st.bound || x in Ids(gs) {
      if x in Ids(gs) { var g :| g in gs && g.id == x; }
      if x in st'.bound && x !in st.bound {
        NobodyReleases(script, 0, 0, x);
        var g :| g in gs && g.id == x;
        assert g.id in Ids(gs);
      }
      if x in st.bound { assert !ReleasedIn(script, 0, |script|, x); }
    }
    forall i | 0 <= i < |gs| ensures gs[i].id !in st.bound { assert gs[i] in gs; }
  }

  /** Two calls one after the other never return the same nonzero id, unless it was terminated or
      done in between: during the steps between them, or before an attempt of the second call. */
  lemma TwoCallsTwoIds(
    st: Store, id1: U64, engine1: Engine, script1: seq<Attempt>, between: seq<Event>,
    id2: U64, engine2: Engine, script2: seq<Attempt>)
    requires var (st1, out1, _) := Client(st, id1, engine1, script1, true);
             var (st2, out2, _) := Client(Run(st1, between), id2, engine2, script2, true);
             out1.Accepted? && out2.Accepted? && out1.id == out2.id
    ensures var r := Client(st, id1, engine1, script1, true).1.id;
            ReleaseEv(r) in between || exists a :: a in script2 && ReleaseEv(r) in a.others
  {
    var (st1, out1, _) := Client(st, id1, engine1, script1, true);
    var r := out1.id;
    ReturnedIdIsBound(st, id1, engine1, script1, true);
    if ReleaseEv(r) !in between && forall a :: a in script2 ==> ReleaseEv(r) !in a.others {
      BoundUntilReleased(st1, between, r);
      StaysTaken(Run(st1, between), id2, engine2, script2, true, r);
    }
  }

  /** A bound id that nobody releases is not returned. */
  lemma {:induction false} StaysTaken(st: Store, id: U64, engine: Engine, script: seq<Attempt>, first: bool, taken: U64)
    requires taken in st.bound && forall a :: a in script ==> ReleaseEv(taken) !in a.others
    ensures var out := Client(st, id, engine, script, first).1; out.Accepted? ==> out.id != taken
    decreases script
  {
    if script != [] {
      hide BindingFor, Stored;
      var a := script[0];
      assert a in script && forall b :: b in script[1..] ==> b in script;
      var st1 := Run(st, a.others);
      BoundUntilReleased(st, a.others, taken);
      var (st2, reply) := Negotiate(st1, id, engine, a.alternative);
      match a.net {
        case StrayReply(_) =>
        case LostRequest => if !first { StaysTaken(st1, id, engine, script[1..], false, taken); }
        case LostReply => if !first { StaysTaken(st2, id, engine, script[1..], false, taken); }
        case Delivered =>
          if reply.Conflict? { StaysTaken(st2, reply.alternative, engine, script[1..], false, taken); }
      }
    }
  }

  // ---------- the answer, from the script alone ----------

  /** The id asked for at attempt `k` of a call that has not ended: the given one, then the alternative of
      the last reply that arrived. */
  function Requested(id: U64, script: seq<Attempt>, k: nat): U64
    requires k <= |script|
  {
    if k == 0 then id
    else if script[k - 1].net == Delivered then script[k - 1].alternative
    else Requested(id, script, k - 1)
  }

  predicate Arrives(net: Net) { net == LostReply || net == Delivered || net == StrayReply(true) }

  /** What happens at the server before attempt `k`: the steps of others, and the requests that arrive. */
  function Before(id: U64, engine: Engine, script: seq<Attempt>, k: nat): seq<Event>
    requires k <= |script|
  {
    if k == 0 then []
    else
      Before(id, engine, script, k - 1) + script[k - 1].others
      + if Arrives(script[k - 1].net)
        then [NegotiateEv(Requested(id, script, k - 1), engine, script[k - 1].alternative)] else []
  }

  /** The store the request of attempt `k` meets. */
  function Met(st: Store, id: U64, engine: Engine, script: seq<Attempt>, k: nat): Store
    requires k < |script|
  {
    Run(Run(st, Before(id, engine, script, k)), script[k].others)
  }

  /** The call gives up: a stray reply, or anything lost at the first request. */
  predicate GivesUp(script: seq<Attempt>, k: nat)
    requires k < |script|
  {
    script[k].net.StrayReply? || (k == 0 && script[k].net != Delivered)
  }

  /** The request finds its id unbound, and its reply arrives. */
  predicate Grants(st: Store, id: U64, engine: Engine, script: seq<Attempt>, k: nat)
    requires k < |script|
  {
    script[k].net == Delivered && Requested(id, script, k) !in Met(st, id, engine, script, k).bound
  }

  /** Attempt `k` is the first that ends the call. */
  ghost predicate EndsAt(st: Store, id: U64, engine: Engine, script: seq<Attempt>, k: nat)
    requires k < |script|
  {
    && GoesOn(st, id, engine, script, k)
    && (GivesUp(script, k) || Grants(st, id, engine, script, k))
  }

  ghost predicate GoesOn(st: Store, id: U64, engine: Engine, script: seq<Attempt>, k: nat)
    requires k <= |script|
  {
    forall j :: 0 <= j < k ==> !GivesUp(script, j) && !Grants(st, id, engine, script, j)
  }

  /** The store after attempt `k`. */
  lemma AfterAttempt(st: Store, id: U64, engine: Engine, script: seq<Attempt>, k: nat)
    requires k < |script|
    ensures Run(st, Before(id, engine, script, k + 1)) ==
              if Arrives(script[k].net)
              then Negotiate(Met(st, id, engine, script, k), Requested(id, script, k), engine, script[k].alternative).0
              else Met(st, id, engine, script, k)
  {
    hide Run, Negotiate;
    var before, a := Before(id, engine, script, k), script[k];
    var e := NegotiateEv(Requested(id, script, k), engine, a.alternative);
    RunJoins(st, before, a.others);
    RunThen(st, before + a.others, e);
    assert before + a.others + [] == before + a.others;
  }

  /** While the call goes on it is where the script says. */
  lemma {:induction false} WhileItGoesOn(st: Store, id: U64, engine: Engine, script: seq<Attempt>, k: nat)
    requires k <= |script| && GoesOn(st, id, engine, script, k)
    ensures var now := Client(Run(st, Before(id, engine, script, k)), Requested(id, script, k), engine, script[k..], k == 0);
            var all := Client(st, id, engine, script, true);
            now.0 == all.0 && now.1 == all.1
  {
    hide Run, Negotiate;
    if k == 0 {
      assert script[0..] == script;
      assert Run(st, []) == st by { RunNothing(st); }
    } else {
      var j := k - 1;
      assert !GivesUp(script, j) && !Grants(st, id, engine, script, j);
      WhileItGoesOn(st, id, engine, script, j);
      AfterAttempt(st, id, engine, script, j);
      assert script[j..][0] == script[j] && script[j..][1..] == script[k..];
      NegotiatesExactly(Met(st, id, engine, script, j), Requested(id, script, j), engine, script[j].alternative);
      hide Before, Met, Grants;
    }
  }

  /** The answer of a call, for any losses, conflicts and steps of others.  The first attempt that gives up
      or finds its id unbound ends it: with 0, or with that id, granted on the store it met. */
  lemma AnswerExactly(st: Store, id: U64, engine: Engine, script: seq<Attempt>)
    ensures forall k :: 0 <= k < |script| && EndsAt(st, id, engine, script, k) ==>
              var (st', out, _) := Client(st, id, engine, script, true);
              && out == (if GivesUp(script, k) then Returned(0)
                         else Outcome.Accepted(Requested(id, script, k), Met(st, id, engine, script, k), script[k].alternative))
              && st' == Run(st, Before(id, engine, script, k + 1))
    ensures GoesOn(st, id, engine, script, |script|) ==>
              var (st', out, _) := Client(st, id, engine, script, true);
              out == StillTrying(Requested(id, script, |script|)) && st' == Run(st, Before(id, engine, script, |script|))
    ensures GoesOn(st, id, engine, script, |script|) || exists k :: 0 <= k < |script| && EndsAt(st, id, engine, script, k)
  {
    forall k | 0 <= k < |script| && EndsAt(st, id, engine, script, k)
      ensures var (st', out, _) := Client(st, id, engine, script, true);
              && out == (if GivesUp(script, k) then Returned(0)
                         else Outcome.Accepted(Requested(id, script, k), Met(st, id, engine, script, k), script[k].alternative))
              && st' == Run(st, Before(id, engine, script, k + 1))
    {
      EndIsTheAnswer(st, id, engine, script, k);
    }
    hide GivesUp, Grants, Negotiate, Run, Before, Requested;
    if GoesOn(st, id, engine, script, |script|) {
      WhileItGoesOn(st, id, engine, script, |script|);
      assert script[|script|..] == [];
    } else {
      var j := FirstEnd(st, id, engine, script, |script|);
    }
  }

  lemma EndIsTheAnswer(st: Store, id: U64, engine: Engine, script: seq<Attempt>, k: nat)
    requires k < |script| && EndsAt(st, id, engine, script, k)
    ensures var (st', out, _) := Client(st, id, engine, script, true);
            && out == (if GivesUp(script, k) then Returned(0)
                       else Outcome.Accepted(Requested(id, script, k), Met(st, id, engine, script, k), script[k].alternative))
            && st' == Run(st, Before(id, engine, script, k + 1))
  {
    hide Run, Negotiate;
    WhileItGoesOn(st, id, engine, script, k);
    AfterAttempt(st, id, engine, script, k);
    assert script[k..][0] == script[k];
    NegotiatesExactly(Met(st, id, engine, script, k), Requested(id, script, k), engine, script[k].alternative);
    hide Before, Requested;
  }

  lemma {:induction false} FirstEnd(st: Store, id: U64, engine: Engine, script: seq<Attempt>, n: nat) returns (k: nat)
    requires n <= |script| && !GoesOn(st, id, engine, script, n)
    ensures k < n && EndsAt(st, id, engine, script, k)
  {
    hide GivesUp, Grants;
    k := n - 1;
    if !GoesOn(st, id, engine, script, n - 1) { k := FirstEnd(st, id, engine, script, n - 1); }
  }

  /** So a call is accepted if and only if some delivered attempt, with no earlier end, finds the id it asks
      for unbound; the id returned is the one asked for at the first such attempt. */
  lemma AcceptedExactly(st: Store, id: U64, engine: Engine, script: seq<Attempt>, r: U64)
    ensures var out := Client(st, id, engine, script, true).1;
            (out.Accepted? && out.id == r) <==>
            (exists k :: 0 <= k < |script| && EndsAt(st, id, engine, script, k) && !GivesUp(script, k)
                           && r == Requested(id, script, k))
  {
    AnswerExactly(st, id, engine, script);
    hide Client, EndsAt, GoesOn, GivesUp, Requested, Met, Before, Run;
  }

  /** When every reply arrives and nobody else is at work, the answer is the first id of the chain of
      alternatives that was unbound to begin with. */
  lemma FirstUnboundIsReturned(st: Store, id: U64, engine: Engine, script: seq<Attempt>, k: nat)
    requires forall a :: a in script ==> a.others == [] && a.net == Delivered
    requires k < |script| && Requested(id, script, k) !in st.bound
    requires forall j :: 0 <= j < k ==> Requested(id, script, j) in st.bound
    ensures var (st', out, _) := Client(st, id, engine, script, true);
            && out == Outcome.Accepted(if k == 0 then id else script[k - 1].alternative, st, script[k].alternative)
            && st' == Negotiate(st, Requested(id, script, k), engine, script[k].alternative).0
  {
    hide Client, Run, Before, Requested, Negotiate;
    assert Requested(id, script, k) == if k == 0 then id else script[k - 1].alternative by { LastAlternative(id, script, k); }
    BoundGoesOn(st, id, engine, script, k);
    EndIsTheAnswer(st, id, engine, script, k);
    AfterAttempt(st, id, engine, script, k);
    hide Met, GoesOn;
    assert EndsAt(st, id, engine, script, k) && !GivesUp(script, k);
  }

  lemma LastAlternative(id: U64, script: seq<Attempt>, k: nat)
    requires k < |script| && forall a :: a in script ==> a.net == Delivered
    ensures Requested(id, script, k) == if k == 0 then id else script[k - 1].alternative
  {
    if k > 0 { assert script[k - 1] in script; }
  }

  lemma BoundGoesOn(st: Store, id: U64, engine: Engine, script: seq<Attempt>, k: nat)
    requires forall a :: a in script ==> a.others == [] && a.net == Delivered
    requires k < |script| && Requested(id, script, k) !in st.bound
    requires forall j :: 0 <= j < k ==> Requested(id, script, j) in st.bound
    ensures Met(st, id, engine, script, k) == st && script[k].net == Delivered
    ensures EndsAt(st, id, engine, script, k)
  {
    hide Run, Before, Requested;
    forall j | 0 <= j <= k ensures Met(st, id, engine, script, j) == st && script[j].net == Delivered {
      MetUnchanged(st, id, engine, script, j);
      assert script[j] in script;
    }
    hide Met;
  }

  lemma {:induction false} MetUnchanged(st: Store, id: U64, engine: Engine, script: seq<Attempt>, k: nat)
    requires forall a :: a in script ==> a.others == [] && a.net == Delivered
    requires k < |script| && forall j :: 0 <= j < k ==> Requested(id, script, j) in st.bound
    ensures Met(st, id, engine, script, k) == st && Run(st, Before(id, engine, script, k)) == st
  {
    hide Negotiate;
    assert script[k] in script;
    RunNothing(st);
    if k > 0 {
      MetUnchanged(st, id, engine, script, k - 1);
      AfterAttempt(st, id, engine, script, k - 1);
      assert script[k - 1] in script;
      NegotiatesExactly(st, Requested(id, script, k - 1), engine, script[k - 1].alternative);
    }
  }
}
