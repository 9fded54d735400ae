/**
 What the file system service scheduler does to its services (`storage/fs/scheduler/Scheduler.cc`), on
 values: the lives of all services ever registered, in order of registration, and the id map.

 A life counts how often the service became enabled, a failed `init` included, and how often its
 destroy operation was called.  Results of `init` are arguments.
 */
module Lives {
  import opened Prelude

  datatype Life = Life(
    hasInit: bool, hasDestroy: bool, scope: string, status: bool, enabled: nat, destroyed: nat)

  /** `ids[id]` is the place of the service in the order of registration. */
  datatype State = State(ids: map<int, nat>, lives: seq<Life>)

  datatype Policy = LoadBalance | Single
  datatype Range = All | Specified

  datatype Command =
    | RegisterCmd(id: int, hasInit: bool, hasDestroy: bool, scope: string)
    | EnableCmd(attempts: seq<Attempt>)
    | DisableCmd(dropped: seq<int>)
    | UnloadCmd(dropped: seq<int>)
    | ScopeCmd(id: int, scope: string)
    | ChooseCmd(policy: Policy, selectId: int, range: Range, scope: string, rnd: nat)

  /** An id to enable, and what `init` returns if it is called for it. */
  datatype Attempt = Attempt(id: int, result: int)

  const EMPTY := State(map[], [])

  // ---------- one service ----------

  function Destroyed(l: Life): Life { l.(destroyed := l.destroyed + if l.hasDestroy then 1 else 0) }

  function Enabled(l: Life, result: int): Life {
    if l.status then l
    else if l.hasInit && result == -1 then Destroyed(l.(enabled := l.enabled + 1))
    else l.(status := true, enabled := l.enabled + 1)
  }

  function Disabled(l: Life): Life { if l.status then Destroyed(l).(status := false) else l }

  // ---------- the operations ----------

  function EnableOne(st: State, a: Attempt): State {
    if a.id in st.ids && st.ids[a.id] < |st.lives| then
      st.(lives := st.lives[st.ids[a.id] := Enabled(st.lives[st.ids[a.id]], a.result)])
    else st
  }

  function EnableAll(st: State, attempts: seq<Attempt>): State {
    if attempts == [] then st else EnableOne(EnableAll(st, attempts[..|attempts| - 1]), attempts[|attempts| - 1])
  }

  function DisableOne(st: State, id: int): State {
    if id in st.ids && st.ids[id] < |st.lives| then
      st.(lives := st.lives[st.ids[id] := Disabled(st.lives[st.ids[id]])])
    else st
  }

  function DisableAll(st: State, dropped: seq<int>): State {
    if dropped == [] then st else DisableOne(DisableAll(st, dropped[..|dropped| - 1]), dropped[|dropped| - 1])
  }

  function Forget(st: State, dropped: seq<int>): State {
    st.(ids := map id | id in st.ids && id !in dropped :: st.ids[id])
  }

  function Rescoped(st: State, id: int, scope: string): State {
    if id in st.ids && st.ids[id] < |st.lives| then
      st.(lives := st.lives[st.ids[id] := st.lives[st.ids[id]].(scope := scope)])
    else st
  }

  predicate Registers(st: State, c: Command) { c.RegisterCmd? && c.id > 0 && c.id !in st.ids }

  function Registered(st: State, id: int, hasInit: bool, hasDestroy: bool, scope: string): State {
    State(st.ids[id := |st.lives|], st.lives + [Life(hasInit, hasDestroy, scope, false, 0, 0)])
  }

  function Apply(st: State, c: Command): State {
    match c
    case RegisterCmd(id, hasInit, hasDestroy, scope) =>
      if Registers(st, c) then Registered(st, id, hasInit, hasDestroy, scope) else st
    case EnableCmd(attempts) => EnableAll(st, attempts)
    case DisableCmd(dropped) => DisableAll(st, dropped)
    case UnloadCmd(dropped) => Forget(DisableAll(st, dropped), dropped)
    case ScopeCmd(id, scope) => Rescoped(st, id, scope)
    case ChooseCmd(_, _, _, _, _) => st
  }

  function Run(commands: seq<Command>): State {
    if commands == [] then EMPTY else Apply(Run(commands[..|commands| - 1]), commands[|commands| - 1])
  }

  /** The destructor destroys what is registered and enabled. */
  function Ended(st: State): State {
    State(map[], seq(|st.lives|, k requires 0 <= k < |st.lives| =>
      if k in st.ids.Values && st.lives[k].status then Destroyed(st.lives[k]) else st.lives[k]))
  }

  // ---------- one place for each id ----------

  ghost predicate Sound(st: State) {
    && (forall id :: id in st.ids ==> st.ids[id] < |st.lives|)
    && (forall i, j :: i in st.ids && j in st.ids && st.ids[i] == st.ids[j] ==> i == j)
  }

  lemma {:induction false} EnableKeepsIds(st: State, attempts: seq<Attempt>)
    ensures EnableAll(st, attempts).ids == st.ids && |EnableAll(st, attempts).lives| == |st.lives|
  {
    if attempts != [] { EnableKeepsIds(st, attempts[..|attempts| - 1]); }
  }

  lemma {:induction false} DisableKeepsIds(st: State, dropped: seq<int>)
    ensures DisableAll(st, dropped).ids == st.ids && |DisableAll(st, dropped).lives| == |st.lives|
  {
    if dropped != [] { DisableKeepsIds(st, dropped[..|dropped| - 1]); }
  }

  lemma ApplySound(st: State, c: Command)
    requires Sound(st)
    ensures Sound(Apply(st, c))
    ensures |Apply(st, c).lives| == |st.lives| + if Registers(st, c) then 1 else 0
  {
    match c {
      case EnableCmd(attempts) => EnableKeepsIds(st, attempts);
      case DisableCmd(dropped) => DisableKeepsIds(st, dropped);
      case UnloadCmd(dropped) => DisableKeepsIds(st, dropped);
      case _ =>
    }
    hide EnableAll, DisableAll;
  }

  lemma {:induction false} RunSound(commands: seq<Command>)
    ensures Sound(Run(commands))
  {
    if commands != [] {
      hide Apply, Sound;
      RunSound(commands[..|commands| - 1]);
      ApplySound(Run(commands[..|commands| - 1]), commands[|commands| - 1]);
    } else {
      assert Sound(EMPTY);
    }
  }

  // ---------- the effect of the lists ----------

  /** `init` succeeds for the id at some place of the list. */
  ghost predicate Succeeds(attempts: seq<Attempt>, id: int, hasInit: bool) {
    exists a :: a in attempts && a.id == id && (!hasInit || a.result != -1)
  }

  /** A service is enabled afterwards if and only if it was before or its `init` succeeds at some mention;
      nothing but its status and counters changes. */
  lemma {:induction false} EnableExactly(st: State, attempts: seq<Attempt>, id: int)
    requires Sound(st) && id in st.ids
    ensures EnableAll(st, attempts).ids == st.ids && |EnableAll(st, attempts).lives| == |st.lives|
    ensures var was, now := st.lives[st.ids[id]], EnableAll(st, attempts).lives[st.ids[id]];
            && (now.status <==> was.status || Succeeds(attempts, id, was.hasInit))
            && now.scope == was.scope && now.hasInit == was.hasInit && now.hasDestroy == was.hasDestroy
  {
    EnableKeepsIds(st, attempts);
    if attempts != [] {
      var front, last := attempts[..|attempts| - 1], attempts[|attempts| - 1];
      assert attempts == front + [last];
      EnableExactly(st, front, id);
      EnableKeepsIds(st, front);
      var was := st.lives[st.ids[id]];
      assert Succeeds(attempts, id, was.hasInit)
        <==> Succeeds(front, id, was.hasInit) || (last.id == id && (!was.hasInit || last.result != -1));
      hide Succeeds;
    }
  }

  /** Afterwards the ids of the list are disabled and the others as they were. */
  lemma {:induction false} DisableExactly(st: State, dropped: seq<int>, id: int)
    requires Sound(st) && id in st.ids
    ensures DisableAll(st, dropped).ids == st.ids && |DisableAll(st, dropped).lives| == |st.lives|
    ensures DisableAll(st, dropped).lives[st.ids[id]] ==
              if id in dropped then Disabled(st.lives[st.ids[id]]) else st.lives[st.ids[id]]
  {
    DisableKeepsIds(st, dropped);
    if dropped != [] {
      var front, last := dropped[..|dropped| - 1], dropped[|dropped| - 1];
      assert dropped == front + [last];
      DisableExactly(st, front, id);
      DisableKeepsIds(st, front);
    }
  }

  // ---------- every enabling is destroyed ----------

  /** Each time it became enabled is matched by one destroy, but for the current one. */
  predicate Balanced(l: Life) {
    if l.hasDestroy then l.enabled == l.destroyed + (if l.status then 1 else 0) else l.destroyed == 0
  }

  /** Every life is balanced, and only a registered service is enabled. */
  ghost predicate Good(st: State) {
    && Sound(st)
    && (forall k :: 0 <= k < |st.lives| ==> Balanced(st.lives[k]))
    && (forall k :: 0 <= k < |st.lives| && st.lives[k].status ==> k in st.ids.Values)
  }

  lemma {:induction false} EnableGood(st: State, attempts: seq<Attempt>)
    requires Good(st)
    ensures Good(EnableAll(st, attempts)) && EnableAll(st, attempts).ids == st.ids
  {
    if attempts != [] {
      EnableGood(st, attempts[..|attempts| - 1]);
      PlaceTaken(EnableAll(st, attempts[..|attempts| - 1]), attempts[|attempts| - 1].id);
    }
  }

  lemma PlaceTaken(st: State, id: int)
    ensures id in st.ids ==> st.ids[id] in st.ids.Values
  {
  }

  lemma {:induction false} DisableGood(st: State, dropped: seq<int>)
    requires Good(st)
    ensures Good(DisableAll(st, dropped)) && DisableAll(st, dropped).ids == st.ids
  {
    if dropped != [] { DisableGood(st, dropped[..|dropped| - 1]); }
  }

  lemma UnloadGood(st: State, dropped: seq<int>)
    requires Good(st)
    ensures Good(Forget(DisableAll(st, dropped), dropped))
  {
    DisableGood(st, dropped);
    var mid, now := DisableAll(st, dropped), Forget(DisableAll(st, dropped), dropped);
    forall k | 0 <= k < |now.lives| && now.lives[k].status ensures k in now.ids.Values {
      var id := SomeKey(mid.ids, k);
      DisableExactly(st, dropped, id);
      assert now.ids[id] == k;
    }
    hide DisableAll, Balanced;
  }

  lemma RegisterGood(st: State, id: int, hasInit: bool, hasDestroy: bool, scope: string)
    requires Good(st) && id !in st.ids
    ensures Good(Registered(st, id, hasInit, hasDestroy, scope))
  {
    ValuesAfter(st.ids, id, |st.lives|);
  }

  lemma ApplyGood(st: State, c: Command)
    requires Good(st)
    ensures Good(Apply(st, c))
  {
    match c {
      case RegisterCmd(id, hasInit, hasDestroy, scope) =>
        if Registers(st, c) { RegisterGood(st, id, hasInit, hasDestroy, scope); hide Good; }
      case EnableCmd(attempts) => EnableGood(st, attempts);
      case DisableCmd(dropped) => DisableGood(st, dropped);
      case UnloadCmd(dropped) => UnloadGood(st, dropped);
      case ScopeCmd(_, _) =>
      case ChooseCmd(_, _, _, _, _) =>
    }
  }

  lemma {:induction false} RunGood(commands: seq<Command>)
    ensures Good(Run(commands))
  {
    if commands != [] {
      hide Apply, Good;
      RunGood(commands[..|commands| - 1]);
      ApplyGood(Run(commands[..|commands| - 1]), commands[|commands| - 1]);
    } else {
      assert Good(EMPTY);
    }
  }

  // ---------- the same, counted over the commands ----------

  /** Something that concerns a service: a mention in a list to enable, with what `init` returns if called,
      or in a list to disable or unload. */
  datatype Touch = Try(result: int) | Off

  /** Whether it is enabled after these. */
  predicate On(h: seq<Touch>, hasInit: bool) {
    h != [] &&
      match h[|h| - 1]
      case Off => false
      case Try(result) => On(h[..|h| - 1], hasInit) || !hasInit || result != -1
  }

  /** How often it becomes enabled, a failed `init` included: at every mention while it is off. */
  function Starts(h: seq<Touch>, hasInit: bool): nat {
    if h == [] then 0
    else
      var front := h[..|h| - 1];
      Starts(front, hasInit) + if h[|h| - 1].Try? && !On(front, hasInit) then 1 else 0
  }

  /** How often it stops: when `init` fails, and at a mention to disable while it is on. */
  function Stops(h: seq<Touch>, hasInit: bool): nat {
    if h == [] then 0
    else
      var front := h[..|h| - 1];
      Stops(front, hasInit)
      + match h[|h| - 1]
        case Try(result) => if !On(front, hasInit) && hasInit && result == -1 then 1 else 0
        case Off => if On(front, hasInit) then 1 else 0
  }

  /** Every start but the current one has stopped. */
  lemma {:induction false} StartsStop(h: seq<Touch>, hasInit: bool)
    ensures Starts(h, hasInit) == Stops(h, hasInit) + if On(h, hasInit) then 1 else 0
  {
    if h != [] { StartsStop(h[..|h| - 1], hasInit); }
  }

  /** Which registration, in order, has the id after these commands: the last accepted one that was not
      unloaded. */
  function Owner(commands: seq<Command>, id: int): Option<nat>
    decreases |commands|, 0
  {
    if commands == [] then None
    else
      var front, c := commands[..|commands| - 1], commands[|commands| - 1];
      if c.RegisterCmd? && c.id == id && id > 0 && Owner(front, id) == None then Some(Accepted(front))
      else if c.UnloadCmd? && id in c.dropped then None
      else Owner(front, id)
  }

  predicate Accepts(front: seq<Command>, c: Command)
    decreases |front|, 1
  {
    c.RegisterCmd? && c.id > 0 && Owner(front, c.id) == None
  }

  /** How many registrations were accepted. */
  function Accepted(commands: seq<Command>): nat
    decreases |commands|, 0
  {
    if commands == [] then 0
    else
      var front := commands[..|commands| - 1];
      Accepted(front) + if Accepts(front, commands[|commands| - 1]) then 1 else 0
  }

  /** The `k`-th accepted registration. */
  function Registration(commands: seq<Command>, k: nat): (c: Command)
    requires k < Accepted(commands)
    ensures c.RegisterCmd?
  {
    var front, last := commands[..|commands| - 1], commands[|commands| - 1];
    assert Accepted(commands) == Accepted(front) + if Accepts(front, last) then 1 else 0;
    if k < Accepted(front) then Registration(front, k)
    else
      assert Accepts(front, last);
      last
  }

  /** The scope last given to it. */
  function ScopeOf(commands: seq<Command>, k: nat): string
    requires k < Accepted(commands)
  {
    var front, last := commands[..|commands| - 1], commands[|commands| - 1];
    if k == Accepted(front) then Registration(commands, k).scope
    else if last.ScopeCmd? && Owner(front, last.id) == Some(k) then last.scope
    else ScopeOf(front, k)
  }

  function Tries(front: seq<Command>, attempts: seq<Attempt>, k: nat): seq<Touch> {
    if attempts == [] then []
    else
      var a := attempts[|attempts| - 1];
      Tries(front, attempts[..|attempts| - 1], k) + if Owner(front, a.id) == Some(k) then [Try(a.result)] else []
  }

  function Offs(front: seq<Command>, dropped: seq<int>, k: nat): seq<Touch> {
    if dropped == [] then []
    else
      Offs(front, dropped[..|dropped| - 1], k) + if Owner(front, dropped[|dropped| - 1]) == Some(k) then [Off] else []
  }

  function Touches(front: seq<Command>, c: Command, k: nat): seq<Touch> {
    match c
    case EnableCmd(attempts) => Tries(front, attempts, k)
    case DisableCmd(dropped) => Offs(front, dropped, k)
    case UnloadCmd(dropped) => Offs(front, dropped, k)
    case _ => []
  }

  /** All that concerned the `k`-th registered service. */
  function History(commands: seq<Command>, k: nat): seq<Touch> {
    if commands == [] then []
    else
      var front := commands[..|commands| - 1];
      History(front, k) + Touches(front, commands[|commands| - 1], k)
  }

  /** The state says who owns which id. */
  ghost predicate Owned(st: State, commands: seq<Command>) {
    && |st.lives| == Accepted(commands)
    && forall id :: (id in st.ids <==> Owner(commands, id).Some?) && (id in st.ids ==> Owner(commands, id) == Some(st.ids[id]))
  }

  lemma ApplyIds(st: State, c: Command)
    ensures Apply(st, c).ids ==
              match c
              case RegisterCmd(id, _, _, _) => if Registers(st, c) then st.ids[id := |st.lives|] else st.ids
              case UnloadCmd(dropped) => map id | id in st.ids && id !in dropped :: st.ids[id]
              case _ => st.ids
    ensures |Apply(st, c).lives| == |st.lives| + if Registers(st, c) then 1 else 0
  {
    match c {
      case EnableCmd(attempts) => EnableKeepsIds(st, attempts);
      case DisableCmd(dropped) => DisableKeepsIds(st, dropped);
      case UnloadCmd(dropped) => DisableKeepsIds(st, dropped);
      case _ =>
    }
    hide EnableAll, DisableAll;
  }

  lemma {:induction false} RunOwned(commands: seq<Command>)
    ensures Owned(Run(commands), commands)
  {
    if commands == [] {
      assert Run(commands) == EMPTY;
    } else {
      var front, c := commands[..|commands| - 1], commands[|commands| - 1];
      RunOwned(front);
      OwnedStep(Run(front), front, c);
      assert commands == front + [c];
      hide Owned, Apply;
    }
  }

  lemma OwnedStep(st: State, front: seq<Command>, c: Command)
    requires Owned(st, front)
    ensures Owned(Apply(st, c), front + [c])
  {
    var commands, now := front + [c], Apply(st, c);
    assert commands[..|front|] == front;
    ApplyIds(st, c);
    hide Apply;
    assert Accepts(front, c) <==> Registers(st, c);
    forall id
      ensures id in now.ids <==> Owner(commands, id).Some?
      ensures id in now.ids ==> Owner(commands, id) == Some(now.ids[id])
    {
      assert id in st.ids <==> Owner(front, id).Some?;
    }
  }

  /** The life counts what the history says. */
  ghost predicate Counts(l: Life, h: seq<Touch>) {
    && l.status == On(h, l.hasInit) && l.enabled == Starts(h, l.hasInit)
    && l.destroyed == if l.hasDestroy then Stops(h, l.hasInit) else 0
  }

  /** Only the counters and the status differ. */
  predicate SameService(l: Life, l': Life) {
    l.hasInit == l'.hasInit && l.hasDestroy == l'.hasDestroy && l.scope == l'.scope
  }

  lemma TouchCounts(l: Life, h: seq<Touch>, result: int)
    requires Counts(l, h)
    ensures Counts(Enabled(l, result), h + [Try(result)]) && SameService(l, Enabled(l, result))
    ensures Counts(Disabled(l), h + [Off]) && SameService(l, Disabled(l))
  {
    assert (h + [Try(result)])[..|h|] == h && (h + [Off])[..|h|] == h;
  }

  lemma {:induction false} EnableCounts(st: State, front: seq<Command>, attempts: seq<Attempt>, k: nat, h: seq<Touch>)
    requires Owned(st, front) && Sound(st) && k < |st.lives| && Counts(st.lives[k], h)
    ensures var now := EnableAll(st, attempts);
            && |now.lives| == |st.lives| && Counts(now.lives[k], h + Tries(front, attempts, k))
            && SameService(st.lives[k], now.lives[k])
  {
    hide Counts, Enabled, Owner;
    EnableKeepsIds(st, attempts);
    if attempts == [] {
      assert h + [] == h;
    } else {
      var rest, a := attempts[..|attempts| - 1], attempts[|attempts| - 1];
      EnableCounts(st, front, rest, k, h);
      EnableKeepsIds(st, rest);
      TouchCounts(EnableAll(st, rest).lives[k], h + Tries(front, rest, k), a.result);
      Assoc(h, Tries(front, rest, k), if Owner(front, a.id) == Some(k) then [Try(a.result)] else []);
      assert h + Tries(front, rest, k) + [] == h + Tries(front, rest, k);
    }
  }

  lemma {:induction false} DisableCounts(st: State, front: seq<Command>, dropped: seq<int>, k: nat, h: seq<Touch>)
    requires Owned(st, front) && Sound(st) && k < |st.lives| && Counts(st.lives[k], h)
    ensures var now := DisableAll(st, dropped);
            && |now.lives| == |st.lives| && Counts(now.lives[k], h + Offs(front, dropped, k))
            && SameService(st.lives[k], now.lives[k])
  {
    hide Counts, Disabled, Owner;
    DisableKeepsIds(st, dropped);
    if dropped == [] {
      assert h + [] == h;
    } else {
      var rest, id := dropped[..|dropped| - 1], dropped[|dropped| - 1];
      DisableCounts(st, front, rest, k, h);
      DisableKeepsIds(st, rest);
      TouchCounts(DisableAll(st, rest).lives[k], h + Offs(front, rest, k), 0);
      Assoc(h, Offs(front, rest, k), if Owner(front, id) == Some(k) then [Off] else []);
      assert h + Offs(front, rest, k) + [] == h + Offs(front, rest, k);
    }
  }

  lemma {:induction false} OwnersAreAccepted(commands: seq<Command>, id: int)
    ensures Owner(commands, id).Some? ==> Owner(commands, id).value < Accepted(commands)
  {
    if commands != [] { OwnersAreAccepted(commands[..|commands| - 1], id); }
  }

  lemma {:induction false} NothingToTry(front: seq<Command>, attempts: seq<Attempt>, dropped: seq<int>, k: nat)
    requires k >= Accepted(front)
    ensures Tries(front, attempts, k) == [] && Offs(front, dropped, k) == []
    decreases |attempts| + |dropped|
  {
    hide Owner, Accepted;
    if attempts != [] {
      NothingToTry(front, attempts[..|attempts| - 1], dropped, k);
      OwnersAreAccepted(front, attempts[|attempts| - 1].id);
    }
    if dropped != [] {
      NothingToTry(front, attempts, dropped[..|dropped| - 1], k);
      OwnersAreAccepted(front, dropped[|dropped| - 1]);
    }
  }

  /** Nothing concerns a service before it is registered. */
  lemma {:induction false} NoHistoryYet(commands: seq<Command>, k: nat)
    requires k >= Accepted(commands)
    ensures History(commands, k) == []
  {
    if commands != [] {
      var front, c := commands[..|commands| - 1], commands[|commands| - 1];
      NoHistoryYet(front, k);
      NothingToTry(front, if c.EnableCmd? then c.attempts else [],
                   if c.DisableCmd? || c.UnloadCmd? then c.dropped else [], k);
      hide Tries, Offs;
    }
  }

  /** The life of the `k`-th registered service, from the commands. */
  ghost predicate LifeIs(l: Life, commands: seq<Command>, k: nat)
    requires k < Accepted(commands)
  {
    && l.hasInit == Registration(commands, k).hasInit && l.hasDestroy == Registration(commands, k).hasDestroy
    && l.scope == ScopeOf(commands, k) && Counts(l, History(commands, k))
  }

  lemma StepLifeIs(st: State, front: seq<Command>, c: Command, k: nat)
    requires Owned(st, front) && Sound(st) && k < Accepted(front) && LifeIs(st.lives[k], front, k)
    ensures k < |Apply(st, c).lives| && k < Accepted(front + [c])
    ensures LifeIs(Apply(st, c).lives[k], front + [c], k)
  {
    ApplyIds(st, c);
    assert (front + [c])[..|front|] == front;
    assert History(front + [c], k) == History(front, k) + Touches(front, c, k);
    assert History(front, k) + [] == History(front, k);
    match c {
      case EnableCmd(attempts) =>
        EnableCounts(st, front, attempts, k, History(front, k));
        hide EnableAll;
      case DisableCmd(dropped) =>
        DisableCounts(st, front, dropped, k, History(front, k));
        hide DisableAll;
      case UnloadCmd(dropped) =>
        DisableCounts(st, front, dropped, k, History(front, k));
        hide DisableAll;
      case RegisterCmd(_, _, _, _) =>
      case ScopeCmd(_, _) =>
      case ChooseCmd(_, _, _, _, _) =>
    }
    hide Counts, Tries, Offs, History;
  }

  lemma NewLifeIs(st: State, front: seq<Command>, c: Command)
    requires Owned(st, front) && Accepts(front, c)
    ensures |Apply(st, c).lives| == |st.lives| + 1 == Accepted(front + [c])
    ensures LifeIs(Apply(st, c).lives[|st.lives|], front + [c], |st.lives|)
  {
    assert (front + [c])[..|front|] == front;
    assert c.id !in st.ids;
    NoHistoryYet(front, |st.lives|);
    assert History(front + [c], |st.lives|) == [];
    hide History;
  }

  /** Over every sequence of operations, each life is what the commands say. */
  lemma {:induction false} RunLivesAre(commands: seq<Command>, k: nat)
    requires k < Accepted(commands)
    ensures k < |Run(commands).lives| && LifeIs(Run(commands).lives[k], commands, k)
  {
    var front, c := commands[..|commands| - 1], commands[|commands| - 1];
    assert commands == front + [c];
    RunOwned(front);
    RunOwned(commands);
    RunSound(front);
    hide LifeIs, Sound, Apply;
    if k < Accepted(front) {
      RunLivesAre(front, k);
      StepLifeIs(Run(front), front, c, k);
    } else {
      NewLifeIs(Run(front), front, c);
    }
  }

  /** Over every sequence of operations and then the destructor there is one life for each accepted
      registration, and in each the destroy operation was called exactly as often as the commands made
      the service enabled, a failed `init` included. */
  lemma EveryEnableIsDestroyed(commands: seq<Command>)
    ensures var lives := Ended(Run(commands)).lives;
            && |lives| == Accepted(commands)
            && forall k :: 0 <= k < |lives| ==>
                 var r := Registration(commands, k);
                 && lives[k].destroyed == (if r.hasDestroy then Starts(History(commands, k), r.hasInit) else 0)
                 && lives[k].enabled == Starts(History(commands, k), r.hasInit)
  {
    RunGood(commands);
    RunOwned(commands);
    var lives := Ended(Run(commands)).lives;
    forall k | 0 <= k < |lives|
      ensures var r := Registration(commands, k);
              && lives[k].destroyed == (if r.hasDestroy then Starts(History(commands, k), r.hasInit) else 0)
              && lives[k].enabled == Starts(History(commands, k), r.hasInit)
    {
      RunLivesAre(commands, k);
      StartsStop(History(commands, k), Registration(commands, k).hasInit);
      hide Run, History, Registration, Accepted, Starts, Stops, On;
    }
    hide Run, Accepted;
  }

  /** Failed attempts at an id before the first success. */
  ghost function FailedFirst(attempts: seq<Attempt>, id: int): nat {
    if attempts == [] then 0
    else
      var front, a := attempts[..|attempts| - 1], attempts[|attempts| - 1];
      FailedFirst(front, id) + if a.id == id && a.result == -1 && !Succeeds(front, id, true) then 1 else 0
  }

  /** Enabling a disabled service destroys it once for each failed attempt before the first success, and so
      often, and once more on success, it becomes enabled. */
  lemma {:induction false} FailuresAreDestroyed(st: State, attempts: seq<Attempt>, id: int)
    requires Sound(st) && id in st.ids && !st.lives[st.ids[id]].status && st.lives[st.ids[id]].hasInit
    ensures EnableAll(st, attempts).ids == st.ids && |EnableAll(st, attempts).lives| == |st.lives|
    ensures var was, now := st.lives[st.ids[id]], EnableAll(st, attempts).lives[st.ids[id]];
            var failed, ok := FailedFirst(attempts, id), Succeeds(attempts, id, true);
            && now.status == ok
            && now.enabled == was.enabled + failed + (if ok then 1 else 0)
            && now.destroyed == was.destroyed + (if was.hasDestroy then failed else 0)
            && SameService(was, now)
  {
    EnableKeepsIds(st, attempts);
    if attempts != [] {
      var front, a := attempts[..|attempts| - 1], attempts[|attempts| - 1];
      assert attempts == front + [a];
      FailuresAreDestroyed(st, front, id);
      assert EnableAll(st, attempts) == EnableOne(EnableAll(st, front), a);
      hide EnableAll;
      assert Succeeds(attempts, id, true) <==> Succeeds(front, id, true) || (a.id == id && a.result != -1);
      hide Succeeds;
    }
  }
}
