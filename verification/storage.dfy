/**
 The storage server: task bindings, extfiles and engine files under one mutex
 (`storage/taskdep/taskdep.cc`, `storage/datamanagement/datamanagement.cc`,
 `storage/datatrans/DatatranServer.cc`).

 The manager is initialised and its file system works: `open` with O_EXCL fails only when the file
 exists.  Each request, and each item of a transfer request, runs under the mutex, so a run is a
 sequence of whole steps.
 */
module Storage {
  import opened Prelude
  import TaskdepCodec

  type Engine = TaskdepCodec.Engine
  type Extfile = TaskdepCodec.Extfile

  datatype Binding = Binding(mid: string, name: string, deps: seq<Engine>)

  datatype Store = Store(bound: map<U64, Binding>, extfiles: map<U64, seq<Extfile>>, files: map<string, string>)

  const EMPTY := Store(map[], map[], map[])

  // ---------- file names ----------

  const ANONYMOUS := "0000aaaa"

  function Path(mid: string, name: string): string { "/engine/JXTDENGINE_" + mid + "_" + name + ".so" }

  function AnonymousPath(id: U64): string { Path(ANONYMOUS, Decimal(id)) }

  lemma SplitAtUnderscore(mid: string, name: string, mid': string, name': string)
    requires mid + "_" + name == mid' + "_" + name' && '_' !in mid' && '_' !in name'
    ensures mid == mid' && name == name'
  {
    var s, s' := mid + "_" + name, mid' + "_" + name';
    assert s[|mid|] == '_';
    assert s[..|mid|] == mid && s'[..|mid'|] == mid';
    assert s[|mid| + 1..] == name && s'[|mid'| + 1..] == name';
  }

  /** Only (anonymous mid, decimal id) names the anonymous file of a task. */
  lemma PathIsAnonymous(mid: string, name: string, id: U64)
    ensures Path(mid, name) == AnonymousPath(id) <==> mid == ANONYMOUS && name == Decimal(id)
  {
    hide Decimal;
    if Path(mid, name) == AnonymousPath(id) {
      var n := |"/engine/JXTDENGINE_"|;
      var s, s' := Path(mid, name), AnonymousPath(id);
      assert s[n..|s| - 3] == mid + "_" + name;
      assert s'[n..|s'| - 3] == ANONYMOUS + "_" + Decimal(id);
      DecimalHasDigits(id);
      SplitAtUnderscore(mid, name, ANONYMOUS, Decimal(id));
    }
  }

  lemma AnonymousPathsDiffer(a: U64, b: U64)
    requires AnonymousPath(a) == AnonymousPath(b)
    ensures a == b
  {
    hide Decimal, Path;
    PathIsAnonymous(ANONYMOUS, Decimal(a), b);
    DecimalInjective(a, b);
  }

  // ---------- the steps ----------

  /** `engine_push`: an existing file is left alone. */
  function Stored(st: Store, mid: string, name: string, data: string): Store {
    if Path(mid, name) in st.files then st else st.(files := st.files[Path(mid, name) := data])
  }

  /** `engine_pull`: no file reads as empty. */
  function Pulled(st: Store, mid: string, name: string): string {
    if Path(mid, name) in st.files then st.files[Path(mid, name)] else ""
  }

  datatype Reply = Conflict(alternative: U64) | Succeed

  /** What an accepted negotiation binds the task to. */
  function BindingFor(id: U64, engine: Engine): Binding {
    if engine.binary != "" then Binding(ANONYMOUS, Decimal(id), engine.deps)
    else Binding(engine.id, engine.name, engine.deps)
  }

  /** The negotiate case of `process`; `alt` is the random alternative. */
  function Negotiate(st: Store, id: U64, engine: Engine, alt: U64): (Store, Reply) {
    if id in st.bound then (st, Conflict(alt))
    else
      var b := BindingFor(id, engine);
      var st1 := if engine.binary != "" then Stored(st, b.mid, b.name, engine.binary) else st;
      var st2 := st1.(bound := st1.bound[id := b]);
      (if engine.extfiles != [] && id !in st2.extfiles then st2.(extfiles := st2.extfiles[id := engine.extfiles]) else st2,
       Succeed)
  }

  /** The terminate and done cases of `process`. */
  function Released(st: Store, id: U64): Store {
    var st1 :=
      if id in st.bound then
        (if st.bound[id].mid == ANONYMOUS then st.(files := st.files - {AnonymousPath(id)}) else st)
          .(bound := st.bound - {id})
      else st;
    st1.(extfiles := st1.extfiles - {id})
  }

  datatype Pull = Pull(mid: string, name: string, binary: string, deps: seq<PulledDep>)
  datatype PulledDep = PulledDep(id: string, name: string, binary: string, path: string)

  function PulledDeps(st: Store, b: Binding, deps: seq<Engine>): seq<PulledDep> {
    if deps == [] then []
    else
      var e := deps[|deps| - 1];
      PulledDeps(st, b, deps[..|deps| - 1])
      + [PulledDep(e.id, e.name, Pulled(st, e.id, e.name), "./JXTDENGINE_" + b.mid + "_" + b.name + ".so")]
  }

  /** `EnginePull`: by task id, or by name when the id is zero. */
  function EnginePull(st: Store, id: U64, mid: string, name: string): Pull {
    if id == 0 then Pull(mid, name, Pulled(st, mid, name), [])
    else if id in st.bound then
      var b := st.bound[id];
      Pull(b.mid, b.name, Pulled(st, b.mid, b.name), PulledDeps(st, b, b.deps))
    else Pull("", "", "", [])
  }

  class Datamanager {
    var taskEngine: map<U64, Binding>
    var taskExtfiles: map<U64, seq<Extfile>>
    var files: map<string, string>

    constructor ()
      ensures Value() == EMPTY
    {
      taskEngine, taskExtfiles, files := map[], map[], map[];
    }

    ghost function Value(): Store
      reads this
    {
      Store(taskEngine, taskExtfiles, files)
    }

    method PushEngine(mid: string, name: string, engine: string) returns (rc: int)
      modifies this`files
      ensures Value() == Stored(old(Value()), mid, name, engine)
      ensures rc == if Path(mid, name) in old(files) then -1 else 0
    {
      if Path(mid, name) in files { return -1; }
      files := files[Path(mid, name) := engine];
      rc := 0;
    }

    method PullEngine(mid: string, name: string) returns (data: string)
      ensures data == Pulled(Value(), mid, name)
    {
      data := if Path(mid, name) in files then files[Path(mid, name)] else "";
    }

    method RemoveEngine(mid: string, name: string)
      modifies this`files
      ensures files == old(files) - {Path(mid, name)}
    {
      files := files - {Path(mid, name)};
    }

    method ProcessNegotiate(id: U64, engine: Engine, alt: U64) returns (reply: Reply)
      modifies this
      ensures (Value(), reply) == Negotiate(old(Value()), id, engine, alt)
    {
      if id in taskEngine { return Conflict(alt); }
      var mid, name;
      if engine.binary != "" {
        mid, name := ANONYMOUS, Decimal(id);
        var rc := PushEngine(mid, name, engine.binary);  // the result is not looked at
      } else {
        mid, name := engine.id, engine.name;
      }
      taskEngine := taskEngine[id := Binding(mid, name, engine.deps)];
      if engine.extfiles != [] {
        if id !in taskExtfiles {
          taskExtfiles := taskExtfiles[id := engine.extfiles];
        }
      }
      reply := Succeed;
    }

    method ProcessRelease(id: U64)
      modifies this
      ensures Value() == Released(old(Value()), id)
    {
      if id in taskEngine {
        if taskEngine[id].mid == ANONYMOUS { RemoveEngine(ANONYMOUS, Decimal(id)); }
        taskEngine := taskEngine - {id};
      }
      if id in taskExtfiles {
        taskExtfiles := taskExtfiles - {id};
      } else {
        assert taskExtfiles - {id} == taskExtfiles;
      }
    }

    method ProcessPull(id: U64, mid: string, name: string) returns (r: Pull)
      ensures r == EnginePull(Value(), id, mid, name)
    {
      if id == 0 {
        var binary := PullEngine(mid, name);
        return Pull(mid, name, binary, []);
      }
      if id !in taskEngine { return Pull("", "", "", []); }
      var b := taskEngine[id];
      var binary := PullEngine(b.mid, b.name);
      var deps: seq<PulledDep> := [];
      for i := 0 to |b.deps|
        invariant deps == PulledDeps(Value(), b, b.deps[..i])
      {
        assert b.deps[..i + 1][..i] == b.deps[..i];
        var e := b.deps[i];
        var data := PullEngine(e.id, e.name);
        deps := deps + [PulledDep(e.id, e.name, data, "./JXTDENGINE_" + b.mid + "_" + b.name + ".so")];
      }
      assert b.deps[..|b.deps|] == b.deps;
      r := Pull(b.mid, b.name, binary, deps);
    }
  }

  // ---------- the invariant ----------

  /** The task is bound to its own anonymous engine. */
  predicate OwnBound(st: Store, id: U64) {
    id in st.bound && st.bound[id].mid == ANONYMOUS && st.bound[id].name == Decimal(id)
  }

  ghost predicate FilesMatch(st: Store) {
    forall id: U64 :: AnonymousPath(id) in st.files <==> OwnBound(st, id)
  }

  /** Extfiles only for bound tasks; the anonymous file of an id exactly while it is bound with a binary. */
  ghost predicate Inv(st: Store) {
    st.extfiles.Keys <= st.bound.Keys && FilesMatch(st)
  }

  datatype Event =
    | NegotiateEv(id: U64, engine: Engine, alt: U64)
    | ReleaseEv(id: U64)
    | PushEv(mid: string, name: string, data: string)
    | PullEv(id: U64, mid: string, name: string)

  function Step(st: Store, e: Event): Store {
    match e
    case NegotiateEv(id, engine, alt) => Negotiate(st, id, engine, alt).0
    case ReleaseEv(id) => Released(st, id)
    case PushEv(mid, name, data) => Stored(st, mid, name, data)
    case PullEv(_, _, _) => st
  }

  /** A pushed file that is the anonymous file of a task with no binary. */
  predicate PushesAnonymous(st: Store, e: Event) {
    e.PushEv? && e.mid == ANONYMOUS && exists id: U64 :: e.name == Decimal(id) && !OwnBound(st, id)
  }

  /** A fresh task that names its own anonymous engine without sending a binary. */
  predicate NamesAnonymous(st: Store, e: Event) {
    && e.NegotiateEv? && e.id !in st.bound && e.engine.binary == ""
    && e.engine.id == ANONYMOUS && e.engine.name == Decimal(e.id)
  }

  lemma PushExactly(st: Store, e: Event)
    requires Inv(st) && e.PushEv?
    ensures Inv(Step(st, e)) <==> !PushesAnonymous(st, e)
  {
    hide Decimal, Path;
    var st' := Step(st, e);
    forall id: U64 ensures Path(e.mid, e.name) == AnonymousPath(id) <==> e.mid == ANONYMOUS && e.name == Decimal(id) {
      PathIsAnonymous(e.mid, e.name, id);
    }
    if PushesAnonymous(st, e) {
      var id: U64 :| e.name == Decimal(id) && !OwnBound(st, id);
      assert AnonymousPath(id) !in st.files;
      assert AnonymousPath(id) in st'.files && !OwnBound(st', id);
    } else {
      forall id: U64 ensures AnonymousPath(id) in st'.files <==> OwnBound(st', id) {
        assert AnonymousPath(id) in st.files <==> OwnBound(st, id);
      }
    }
  }

  lemma NegotiateExactly(st: Store, e: Event)
    requires Inv(st) && e.NegotiateEv?
    ensures Inv(Step(st, e)) <==> !NamesAnonymous(st, e)
  {
    hide Decimal, Path;
    var id, st' := e.id, Step(st, e);
    if id !in st.bound {
      assert AnonymousPath(id) in st.files <==> OwnBound(st, id);
      forall x: U64 | x != id ensures AnonymousPath(x) in st'.files <==> OwnBound(st', x) {
        assert AnonymousPath(x) in st.files <==> OwnBound(st, x);
        if AnonymousPath(x) == AnonymousPath(id) { AnonymousPathsDiffer(x, id); }
      }
      assert OwnBound(st', id) <==> e.engine.binary != "" || NamesAnonymous(st, e);
      assert AnonymousPath(id) in st'.files <==> e.engine.binary != "";
    }
  }

  lemma ReleaseKeeps(st: Store, id: U64)
    requires Inv(st)
    ensures Inv(Released(st, id))
  {
    hide Decimal, Path;
    var st' := Released(st, id);
    forall x: U64 ensures AnonymousPath(x) in st'.files <==> OwnBound(st', x) {
      assert AnonymousPath(x) in st.files <==> OwnBound(st, x);
      if x != id && AnonymousPath(x) == AnonymousPath(id) { AnonymousPathsDiffer(x, id); }
    }
  }

  /** A step keeps the invariant if and only if it neither pushes nor names an anonymous engine
      file that no binary was negotiated for. */
  lemma StepExactly(st: Store, e: Event)
    requires Inv(st)
    ensures Inv(Step(st, e)) <==> !PushesAnonymous(st, e) && !NamesAnonymous(st, e)
  {
    hide Inv, Negotiate, Released, Stored;
    match e {
      case NegotiateEv(_, _, _) => NegotiateExactly(st, e);
      case ReleaseEv(id) => ReleaseKeeps(st, id);
      case PushEv(_, _, _) => PushExactly(st, e);
      case PullEv(_, _, _) =>
    }
  }

  function Run(st: Store, events: seq<Event>): Store {
    if events == [] then st else Step(Run(st, events[..|events| - 1]), events[|events| - 1])
  }

  /** Nothing pushed or named uses the anonymous mid. */
  predicate AvoidsAnonymous(e: Event) {
    match e
    case NegotiateEv(_, engine, _) => engine.binary == "" ==> engine.id != ANONYMOUS
    case PushEv(mid, _, _) => mid != ANONYMOUS
    case _ => true
  }

  /** The invariant holds in every interleaving whose pushed and named ids are not the anonymous one. */
  lemma {:induction false} RunsKeepInvariant(events: seq<Event>)
    requires forall e :: e in events ==> AvoidsAnonymous(e)
    ensures Inv(Run(EMPTY, events))
  {
    if events != [] {
      var front, last := events[..|events| - 1], events[|events| - 1];
      assert forall e :: e in front ==> e in events;
      assert last in events;
      RunsKeepInvariant(front);
      StepExactly(Run(EMPTY, front), last);
    }
  }

  // ---------- isolation and durability ----------

  /** Everything the store keeps for one task. */
  ghost predicate SameFor(st: Store, st': Store, id: U64) {
    && (id in st.bound <==> id in st'.bound) && (id in st.bound ==> st.bound[id] == st'.bound[id])
    && (id in st.extfiles <==> id in st'.extfiles) && (id in st.extfiles ==> st.extfiles[id] == st'.extfiles[id])
    && (AnonymousPath(id) in st.files <==> AnonymousPath(id) in st'.files)
    && (AnonymousPath(id) in st.files ==> st.files[AnonymousPath(id)] == st'.files[AnonymousPath(id)])
  }

  predicate IsAbout(e: Event, id: U64) {
    (e.NegotiateEv? && e.id == id) || (e.ReleaseEv? && e.id == id)
  }

  /** No step on one task disturbs another. */
  lemma StepIsLocal(st: Store, e: Event, id: U64)
    requires !IsAbout(e, id) && AvoidsAnonymous(e)
    ensures SameFor(st, Step(st, e), id)
  {
    hide Decimal, Path;
    match e {
      case NegotiateEv(x, _, _) => if AnonymousPath(x) == AnonymousPath(id) { AnonymousPathsDiffer(x, id); }
      case ReleaseEv(x) => if AnonymousPath(x) == AnonymousPath(id) { AnonymousPathsDiffer(x, id); }
      case PushEv(mid, name, _) => PathIsAnonymous(mid, name, id);
      case PullEv(_, _, _) =>
    }
  }

  /** The task is bound to the engine, and its binary is the one kept. */
  ghost predicate Holds(st: Store, id: U64, engine: Engine) {
    && id in st.bound && st.bound[id] == BindingFor(id, engine)
    && AnonymousPath(id) in st.files && st.files[AnonymousPath(id)] == engine.binary
  }

  lemma StepHolds(st: Store, e: Event, id: U64, engine: Engine)
    requires Holds(st, id, engine) && e != ReleaseEv(id)
    ensures Holds(Step(st, e), id, engine)
  {
    hide Decimal, Path;
    match e {
      case NegotiateEv(x, _, _) =>
      case ReleaseEv(x) => if AnonymousPath(x) == AnonymousPath(id) { AnonymousPathsDiffer(x, id); }
      case PushEv(_, _, _) =>
      case PullEv(_, _, _) =>
    }
  }

  lemma {:induction false} RunHolds(st: Store, events: seq<Event>, id: U64, engine: Engine)
    requires Holds(st, id, engine) && ReleaseEv(id) !in events
    ensures Holds(Run(st, events), id, engine)
  {
    hide Holds, Step;
    if events != [] {
      RunHolds(st, events[..|events| - 1], id, engine);
      assert events[|events| - 1] in events;
      StepHolds(Run(st, events[..|events| - 1]), events[|events| - 1], id, engine);
    }
  }

  /** After an accepted negotiation with a binary, pulling by task id returns that binary through any
      steps at all until the task is released. */
  lemma PullReturnsNegotiated(st: Store, id: U64, engine: Engine, alt: U64, events: seq<Event>)
    requires Inv(st) && id != 0 && engine.binary != "" && id !in st.bound && ReleaseEv(id) !in events
    ensures var st' := Run(Negotiate(st, id, engine, alt).0, events);
            && EnginePull(st', id, "", "").binary == engine.binary
            && EnginePull(st', id, "", "").mid == ANONYMOUS && EnginePull(st', id, "", "").name == Decimal(id)
  {
    assert AnonymousPath(id) in st.files <==> OwnBound(st, id);
    assert Holds(Negotiate(st, id, engine, alt).0, id, engine) by { hide Decimal, Path; }
    RunHolds(Negotiate(st, id, engine, alt).0, events, id, engine);
    hide Decimal, Run, PulledDeps, Negotiate;
  }

  /** Without the invariant it need not: a file pushed under the anonymous mid before the
      negotiation is what the task gets. */
  lemma PushedFirstIsPulled(id: U64, engine: Engine, foreign: string)
    requires id != 0 && engine.binary != "" && foreign != engine.binary
    ensures var st := Step(Step(EMPTY, PushEv(ANONYMOUS, Decimal(id), foreign)), NegotiateEv(id, engine, 1));
            id in st.bound && EnginePull(st, id, "", "").binary == foreign
  {
    hide Decimal, PulledDeps;
  }

  // ---------- no id is given out twice ----------

  /** A bound id keeps its binding until terminate or done. */
  lemma {:induction false} BoundUntilReleased(st: Store, events: seq<Event>, id: U64)
    requires id in st.bound && ReleaseEv(id) !in events
    ensures id in Run(st, events).bound && Run(st, events).bound[id] == st.bound[id]
  {
    if events != [] {
      BoundUntilReleased(st, events[..|events| - 1], id);
      assert events[|events| - 1] in events;
      hide BindingFor, Stored;
    }
  }

  /** Whoever is bound afterwards was bound before or was negotiated for. */
  lemma {:induction false} BoundOrNegotiated(st: Store, events: seq<Event>, id: U64)
    requires id in Run(st, events).bound
    ensures id in st.bound || exists e :: e in events && e.NegotiateEv? && e.id == id
  {
    if events != [] {
      var front, last := events[..|events| - 1], events[|events| - 1];
      assert last in events && forall e :: e in front ==> e in events;
      hide BindingFor, Stored;
      if id in Run(st, front).bound { BoundOrNegotiated(st, front, id); }
    }
  }

  /** Between two accepted negotiations of one id there is a terminate or done of that id. */
  lemma AcceptedTwiceMeansReleased(st: Store, id: U64, first: Engine, second: Engine, alt: U64, alt': U64, between: seq<Event>)
    requires Negotiate(st, id, first, alt).1 == Succeed
    requires Negotiate(Run(Negotiate(st, id, first, alt).0, between), id, second, alt').1 == Succeed
    ensures ReleaseEv(id) in between
  {
    if ReleaseEv(id) !in between {
      BoundUntilReleased(Negotiate(st, id, first, alt).0, between, id);
    }
  }

  // ---------- what is kept and returned ----------

  lemma RunNothing(st: Store)
    ensures Run(st, []) == st
  {
  }

  lemma RunThen(st: Store, events: seq<Event>, e: Event)
    ensures Run(st, events + [e]) == Step(Run(st, events), e)
  {
    hide Step;
  }

  lemma {:induction false} RunJoins(st: Store, a: seq<Event>, b: seq<Event>)
    ensures Run(st, a + b) == Run(Run(st, a), b)
  {
    hide Step, Run;
    if b == [] {
      assert a + b == a;
      RunNothing(Run(st, a));
    } else {
      var front, last := b[..|b| - 1], b[|b| - 1];
      assert b == front + [last];
      RunJoins(st, a, front);
      Assoc(a, front, [last]);
      RunThen(st, a + front, last);
      RunThen(Run(st, a), front, last);
    }
  }

  /** A file that is nobody's anonymous file is never removed or changed. */
  lemma {:induction false} NamedFileStays(st: Store, events: seq<Event>, mid: string, name: string)
    requires mid != ANONYMOUS && Path(mid, name) in st.files
    ensures Path(mid, name) in Run(st, events).files && Run(st, events).files[Path(mid, name)] == st.files[Path(mid, name)]
  {
    if events != [] {
      hide Decimal, Path;
      var last := events[|events| - 1];
      NamedFileStays(st, events[..|events| - 1], mid, name);
      if last.ReleaseEv? { PathIsAnonymous(mid, name, last.id); }
    }
  }

  /** An engine pushed by name is what a pull by name returns from then on, unless one was there already. */
  lemma PushThenPull(st: Store, events: seq<Event>, mid: string, name: string, data: string)
    requires mid != ANONYMOUS
    ensures EnginePull(Run(Step(st, PushEv(mid, name, data)), events), 0, mid, name)
         == Pull(mid, name, if Path(mid, name) in st.files then st.files[Path(mid, name)] else data, [])
  {
    NamedFileStays(Step(st, PushEv(mid, name, data)), events, mid, name);
    hide Run, Path;
  }

  /** A name nothing was pushed under pulls as empty. */
  lemma NothingPushedPullsEmpty(st: Store, mid: string, name: string)
    requires Path(mid, name) !in st.files
    ensures EnginePull(st, 0, mid, name) == Pull(mid, name, "", [])
  {
  }

  lemma {:induction false} ExtfilesUntilReleased(st: Store, events: seq<Event>, id: U64)
    requires id in st.bound && ReleaseEv(id) !in events
    ensures id in Run(st, events).extfiles <==> id in st.extfiles
    ensures id in st.extfiles ==> Run(st, events).extfiles[id] == st.extfiles[id]
  {
    if events != [] {
      var front, last := events[..|events| - 1], events[|events| - 1];
      assert last in events && forall e :: e in front ==> e in events;
      ExtfilesUntilReleased(st, front, id);
      BoundUntilReleased(st, front, id);
      hide BindingFor, Stored;
    }
  }

  /** What an accepted negotiation leaves, through any steps until the release: the engine by its own name,
      or by the anonymous one if a binary came with it, the dependencies and the extfiles. */
  lemma NegotiatedIsKept(st: Store, id: U64, engine: Engine, alt: U64, events: seq<Event>)
    requires Inv(st) && id !in st.bound && ReleaseEv(id) !in events
    ensures var st' := Run(Negotiate(st, id, engine, alt).0, events);
            && id in st'.bound && st'.bound[id].deps == engine.deps
            && (engine.binary == "" ==> st'.bound[id].mid == engine.id && st'.bound[id].name == engine.name)
            && (engine.binary != "" ==> st'.bound[id].mid == "0000aaaa" && st'.bound[id].name == Decimal(id))
            && (id in st'.extfiles <==> engine.extfiles != [])
            && (id in st'.extfiles ==> st'.extfiles[id] == engine.extfiles)
  {
    var st1 := Negotiate(st, id, engine, alt).0;
    assert id !in st.extfiles;
    assert id in st1.bound && st1.bound[id] == BindingFor(id, engine) by { hide Decimal, Path; }
    BoundUntilReleased(st1, events, id);
    ExtfilesUntilReleased(st1, events, id);
    hide Run, Decimal, Path, FilesMatch;
  }

  /** A bound task pulls each of its dependencies, in order, as a pull by name would; all under the path of
      the task's own engine. */
  lemma DependenciesPulled(st: Store, id: U64)
    requires id != 0 && id in st.bound
    ensures var b, deps := st.bound[id], EnginePull(st, id, "", "").deps;
            && |deps| == |b.deps|
            && forall i :: 0 <= i < |deps| ==>
                 && deps[i].id == b.deps[i].id && deps[i].name == b.deps[i].name
                 && deps[i].binary == EnginePull(st, 0, b.deps[i].id, b.deps[i].name).binary
                 && deps[i].path == "./JXTDENGINE_" + b.mid + "_" + b.name + ".so"
  {
    PulledDepsAre(st, st.bound[id], st.bound[id].deps);
    hide PulledDeps, Pulled;
  }

  lemma {:induction false} PulledDepsAre(st: Store, b: Binding, deps: seq<Engine>)
    ensures |PulledDeps(st, b, deps)| == |deps|
    ensures forall i :: 0 <= i < |deps| ==>
              PulledDeps(st, b, deps)[i]
              == PulledDep(deps[i].id, deps[i].name, Pulled(st, deps[i].id, deps[i].name),
                           "./JXTDENGINE_" + b.mid + "_" + b.name + ".so")
  {
    hide Pulled;
    if deps != [] { PulledDepsAre(st, b, deps[..|deps| - 1]); }
  }

  /** After terminate or done nothing is kept for the task: it pulls as empty and its id can be negotiated
      again.  Whatever was kept for others or by name stays. */
  lemma ReleasedIsGone(st: Store, id: U64, engine: Engine, alt: U64)
    ensures var st' := Step(st, ReleaseEv(id));
            && st'.bound.Keys == st.bound.Keys - {id} && st'.extfiles.Keys == st.extfiles.Keys - {id}
            && (id != 0 ==> EnginePull(st', id, "", "") == Pull("", "", "", []))
            && Negotiate(st', id, engine, alt).1 == Succeed
            && forall path :: path in st.files && path != AnonymousPath(id) ==>
                 path in st'.files && st'.files[path] == st.files[path]
    ensures id in st.bound && st.bound[id].mid == "0000aaaa" ==> AnonymousPath(id) !in Step(st, ReleaseEv(id)).files
  {
    hide AnonymousPath, BindingFor, Stored;
  }

  /** A negotiation succeeds exactly for an unbound id; otherwise it answers with the alternative and changes
      nothing. */
  lemma NegotiatesExactly(st: Store, id: U64, engine: Engine, alt: U64)
    ensures Negotiate(st, id, engine, alt).1 == Succeed <==> id !in st.bound
    ensures id in st.bound ==> Negotiate(st, id, engine, alt) == (st, Conflict(alt))
  {
  }
}
