/**
 The cluster's task manager: a dependency matrix indexed by `dep_pos`
 (`computation/infer/infer.cc`), driven by `process` (`computation/taskdep/taskdep.cc`).

 `vector::at` out of range throws; `erase` past the end is undefined.  Both are outcomes here.
 Each of the four operations runs under the manager's mutex.  `process` makes several of them without
 holding it, so the lemmas about a whole request are about a request that no other handler comes
 between; `TaskCalls` is about any interleaving of the operations.
 */
module TaskManager {
  import opened Prelude

  datatype Taskinfo = Taskinfo(
    depPos: nat, inputPath: string, inputData: string, outputPath: string, directoryPolicy: U32,
    emptyPolicy: U32, period: U32, backupId: seq<U32>, resultPolicy: U32, triggerPolicy: U32)

  datatype State = State(edges: seq<seq<bool>>, tasks: map<U64, Taskinfo>)

  datatype Status = Done | Rejected | Throws | Undefined

  // ---------- the four operations ----------

  function Falses(n: nat): (r: seq<bool>)
    ensures |r| == n && forall i :: 0 <= i < n ==> !r[i]
  {
    if n == 0 then [] else Falses(n - 1) + [false]
  }

  /** Every row grows by one `false`. */
  function Widened(edges: seq<seq<bool>>): (r: seq<seq<bool>>)
    ensures |r| == |edges| && forall i :: 0 <= i < |r| ==> r[i] == edges[i] + [false]
  {
    if edges == [] then [] else Widened(edges[..|edges| - 1]) + [edges[|edges| - 1] + [false]]
  }

  /** `deploy_task`; `Rejected` is the return value -1. */
  function Deploy(s: State, id: U64, info: Taskinfo): (State, Status) {
    if id in s.tasks then (s, Rejected)
    else
      var tasks := s.tasks[id := info.(depPos := |s.tasks|)];
      (State(Widened(s.edges) + [Falses(|tasks|)], tasks), Done)
  }

  /** The loop of `add_deps`: marks made before a missing dependency stay. */
  function Mark(s: State, row: nat, deps: seq<U64>): (State, Status) {
    if deps == [] then (s, Done)
    else
      var (s', status) := Mark(s, row, deps[..|deps| - 1]);
      var dep := deps[|deps| - 1];
      if status != Done then (s', status)
      else if dep !in s.tasks then (s', Rejected)
      else
        var col := s.tasks[dep].depPos;
        if row >= |s'.edges| || col >= |s'.edges[row]| then (s', Throws)
        else (s'.(edges := s'.edges[row := s'.edges[row][col := true]]), Done)
  }

  /** `add_deps`. */
  function AddDeps(s: State, id: U64, deps: seq<U64>): (State, Status) {
    if id !in s.tasks then (s, Rejected) else Mark(s, s.tasks[id].depPos, deps)
  }

  /** `submit`: `Done` hands the task to the named server, `Rejected` is the null return. */
  function Submit(s: State, id: U64, serverKnown: bool): Status {
    if id !in s.tasks then Rejected
    else if s.tasks[id].depPos >= |s.edges| then Throws
    else if true in s.edges[s.tasks[id].depPos] then Rejected
    else if serverKnown then Done else Rejected
  }

  function Cut<T>(s: seq<T>, i: nat): seq<T>
    requires i < |s|
  {
    s[..i] + s[i + 1..]
  }

  function CutColumn(edges: seq<seq<bool>>, i: nat): (r: seq<seq<bool>>)
    requires forall k :: 0 <= k < |edges| ==> i < |edges[k]|
    ensures |r| == |edges| && forall k :: 0 <= k < |r| ==> r[k] == Cut(edges[k], i)
  {
    if edges == [] then [] else CutColumn(edges[..|edges| - 1], i) + [Cut(edges[|edges| - 1], i)]
  }

  predicate Erasable(edges: seq<seq<bool>>, i: nat) {
    i < |edges| && forall k :: 0 <= k < |edges| && k != i ==> i < |edges[k]|
  }

  lemma CutRows(edges: seq<seq<bool>>, i: nat)
    requires Erasable(edges, i)
    ensures forall k :: 0 <= k < |Cut(edges, i)| ==> i < |Cut(edges, i)[k]|
  {
  }

  /** `remove_task` up to the unlock: a row and a column go, the other positions stay as they are. */
  function Remove(s: State, id: U64): (State, Status) {
    if id !in s.tasks then (s, Rejected)
    else
      var p := s.tasks[id].depPos;
      if !Erasable(s.edges, p) then (s, Undefined)
      else
        CutRows(s.edges, p);
        (State(CutColumn(Cut(s.edges, p), p), s.tasks - {id}), Done)
  }

  class Taskmanager {
    var edges: seq<seq<bool>>
    var tasks: map<U64, Taskinfo>

    constructor ()
      ensures Value() == State([], map[])
    {
      edges, tasks := [], map[];
    }

    ghost function Value(): State
      reads this
    {
      State(edges, tasks)
    }

    method DeployTask(id: U64, info: Taskinfo) returns (status: Status)
      modifies this
      ensures (Value(), status) == Deploy(old(Value()), id, info)
    {
      if id in tasks { return Rejected; }
      tasks := tasks[id := info.(depPos := |tasks|)];
      var i := 0;
      while i < |edges|
        invariant 0 <= i <= |edges| && |edges| == |old(edges)| && tasks == old(tasks)[id := info.(depPos := |old(tasks)|)]
        invariant forall k :: 0 <= k < |edges| ==> edges[k] == old(edges)[k] + if k < i then [false] else []
      {
        edges := edges[i := edges[i] + [false]];
        i := i + 1;
      }
      assert edges == Widened(old(edges));
      var last: seq<bool> := Falses(|tasks|);
      edges := edges + [last];
      status := Done;
    }

    method AddDependencies(id: U64, deps: seq<U64>) returns (status: Status)
      modifies this`edges
      ensures (Value(), status) == AddDeps(old(Value()), id, deps)
    {
      if id !in tasks { return Rejected; }
      var row := tasks[id].depPos;
      var i := 0;
      while i < |deps|
        invariant 0 <= i <= |deps| && (Value(), Done) == Mark(old(Value()), row, deps[..i])
      {
        var dep := deps[i];
        assert deps[..i + 1][..i] == deps[..i];
        if dep !in tasks {
          MarkStops(old(Value()), row, deps, i + 1);
          return Rejected;
        }
        var col := tasks[dep].depPos;
        if row >= |edges| || col >= |edges[row]| {
          MarkStops(old(Value()), row, deps, i + 1);
          return Throws;
        }
        edges := edges[row := edges[row][col := true]];
        i := i + 1;
      }
      assert deps[..|deps|] == deps;
      status := Done;
    }

    method SubmitTask(id: U64, serverKnown: bool) returns (status: Status)
      ensures status == Submit(Value(), id, serverKnown)
    {
      if id !in tasks { return Rejected; }
      var p := tasks[id].depPos;
      if p >= |edges| { return Throws; }
      var i := 0;
      while i < |edges[p]|
        invariant 0 <= i <= |edges[p]| && true !in edges[p][..i]
      {
        if edges[p][i] { return Rejected; }
        i := i + 1;
      }
      assert edges[p][..i] == edges[p];
      status := if serverKnown then Done else Rejected;
    }

    method RemoveTask(id: U64) returns (status: Status)
      modifies this
      ensures (Value(), status) == Remove(old(Value()), id)
    {
      if id !in tasks { return Rejected; }
      var p := tasks[id].depPos;
      if !Erasable(edges, p) { return Undefined; }
      CutRows(edges, p);
      edges := Cut(edges, p);
      tasks := tasks - {id};
      var i := 0;
      ghost var rows := edges;
      while i < |edges|
        invariant 0 <= i <= |edges| == |rows| && tasks == old(tasks) - {id}
        invariant forall k :: 0 <= k < |edges| ==> edges[k] == if k < i then Cut(rows[k], p) else rows[k]
      {
        edges := edges[i := Cut(edges[i], p)];
        i := i + 1;
      }
      assert edges == CutColumn(rows, p);
      status := Done;
    }

    /** The deploy case of `process`. */
    method ProcessDeploy(req: DeployRequest, serverKnown: bool) returns (reply: Reply)
      modifies this
      ensures (Value(), reply) == HandleDeploy(old(Value()), req, serverKnown)
    {
      if req.sourceType != "data" && req.sourceType != "endpoint" { return Illegal; }
      var judge := DeployTask(req.id, InfoOf(req));
      if judge == Rejected { return Illegal; }
      if req.trigger == CREATE {
        var sub := SubmitTask(req.id, serverKnown);
        if sub == Throws { return Crash; }
        if sub == Done { return Triggered; }
        var removed := RemoveTask(req.id);
        reply := if removed == Undefined then Crash else Err;
      } else if req.trigger == DEPS {
        var added := AddDependencies(req.id, req.deps);
        if added == Throws { return Crash; }
        if added == Done { return Deployed; }
        var removed := RemoveTask(req.id);
        reply := if removed == Undefined then Crash else DepsBroken;
      } else {
        reply := Deployed;
      }
    }
  }

  lemma {:induction false} MarkStops(s: State, row: nat, deps: seq<U64>, n: nat)
    requires n <= |deps| && Mark(s, row, deps[..n]).1 != Done
    ensures Mark(s, row, deps) == Mark(s, row, deps[..n])
    decreases |deps| - n
  {
    if n < |deps| {
      assert deps[..n + 1][..n] == deps[..n];
      MarkStops(s, row, deps, n + 1);
    } else {
      assert deps[..n] == deps;
    }
  }

  // ---------- the cluster's steps ----------

  const CREATE: U32 := 1
  const DEPS: U32 := 2

  datatype Period = Period(interval: U32, resultPolicy: U32, triggerPolicy: U32, backupId: seq<U32>)

  datatype DeployRequest = DeployRequest(
    id: U64, sourceType: string, input: string, output: string, directoryPolicy: U32, emptyPolicy: U32,
    virtStorage: bool, period: Option<Period>, trigger: U32, deps: seq<U64>)

  /** The response of a deploy; `Crash` is an escaping exception or undefined behaviour. */
  datatype Reply = Triggered | Deployed | Err | DepsBroken | Illegal | Crash

  function InfoOf(req: DeployRequest): Taskinfo {
    var period := if req.period.Some? then req.period.value else Period(0, 0, 0, []);
    Taskinfo(0, if req.sourceType == "data" then "" else req.input, if req.sourceType == "data" then req.input else "",
             if req.virtStorage then "" else req.output, req.directoryPolicy, req.emptyPolicy,
             period.interval, period.backupId, period.resultPolicy, period.triggerPolicy)
  }

  function HandleDeploy(s: State, req: DeployRequest, serverKnown: bool): (State, Reply) {
    if req.sourceType != "data" && req.sourceType != "endpoint" then (s, Illegal)
    else
      var (s1, judge) := Deploy(s, req.id, InfoOf(req));
      if judge == Rejected then (s1, Illegal)
      else if req.trigger == CREATE then
        var sub := Submit(s1, req.id, serverKnown);
        if sub == Throws then (s1, Crash)
        else if sub == Done then (s1, Triggered)
        else RolledBack(s1, req.id, Err)
      else if req.trigger == DEPS then
        var (s2, added) := AddDeps(s1, req.id, req.deps);
        if added == Throws then (s2, Crash)
        else if added == Done then (s2, Deployed)
        else RolledBack(s2, req.id, DepsBroken)
      else (s1, Deployed)
  }

  function RolledBack(s: State, id: U64, reply: Reply): (State, Reply) {
    var (s', removed) := Remove(s, id);
    (s', if removed == Undefined then Crash else reply)
  }

  // ---------- a failed deploy is a no-op ----------

  ghost predicate Square(s: State) {
    |s.edges| == |s.tasks| && forall i :: 0 <= i < |s.edges| ==> |s.edges[i]| == |s.tasks|
  }

  lemma DeploySquare(s: State, id: U64, info: Taskinfo)
    requires Square(s) && id !in s.tasks
    ensures Square(Deploy(s, id, info).0)
  {
    assert |s.tasks[id := info.(depPos := |s.tasks|)]| == |s.tasks| + 1;
  }

  /** `add_deps` touches one row only. */
  lemma {:induction false} MarkTouchesOneRow(s: State, row: nat, deps: seq<U64>)
    ensures var s' := Mark(s, row, deps).0;
            && s'.tasks == s.tasks && |s'.edges| == |s.edges|
            && forall k :: 0 <= k < |s.edges| ==> |s'.edges[k]| == |s.edges[k]| && (k != row ==> s'.edges[k] == s.edges[k])
  {
    if deps != [] { MarkTouchesOneRow(s, row, deps[..|deps| - 1]); }
  }

  /** Removing the newest task takes back the deploy, whatever `add_deps` did to its row. */
  lemma UndoDeploy(s: State, id: U64, info: Taskinfo, s': State)
    requires Square(s) && id !in s.tasks
    requires var s1 := Deploy(s, id, info).0;
             && s'.tasks == s1.tasks && |s'.edges| == |s1.edges|
             && (forall k :: 0 <= k < |s.edges| ==> s'.edges[k] == s1.edges[k])
             && |s'.edges[|s.edges|]| == |s1.tasks|
    ensures Remove(s', id) == (s, Done)
  {
    var n := |s.edges|;
    assert s'.tasks[id].depPos == n;
    assert Erasable(s'.edges, n);
    CutRows(s'.edges, n);
    var cut := CutColumn(Cut(s'.edges, n), n);
    forall k | 0 <= k < n ensures cut[k] == s.edges[k] {
      assert Cut(s.edges[k] + [false], n) == s.edges[k];
    }
    assert cut == s.edges;
    assert s'.tasks - {id} == s.tasks;
  }

  /** From any square matrix, even with stale positions, a deploy that is answered with an error
      leaves the tasks and the matrix exactly as they were. */
  lemma FailedDeployIsNoOp(s: State, req: DeployRequest, serverKnown: bool)
    requires Square(s)
    requires HandleDeploy(s, req, serverKnown).1 in {Err, DepsBroken, Illegal}
    ensures HandleDeploy(s, req, serverKnown).0 == s
  {
    hide Remove, Mark, InfoOf, Submit;
    if req.id !in s.tasks && (req.sourceType == "data" || req.sourceType == "endpoint") {
      var s1 := Deploy(s, req.id, InfoOf(req)).0;
      DeploySquare(s, req.id, InfoOf(req));
      if req.trigger == CREATE {
        UndoDeploy(s, req.id, InfoOf(req), s1);
      } else if req.trigger == DEPS {
        MarkTouchesOneRow(s1, |s.tasks|, req.deps);
        UndoDeploy(s, req.id, InfoOf(req), AddDeps(s1, req.id, req.deps).0);
      }
    }
  }

  /** A deploy triggered at once is refused only because its server is unknown. */
  lemma CreateIsNeverBlocked(s: State, req: DeployRequest, serverKnown: bool)
    requires Square(s) && req.id !in s.tasks && req.trigger == CREATE
    requires req.sourceType == "data" || req.sourceType == "endpoint"
    ensures HandleDeploy(s, req, serverKnown).1 == if serverKnown then Triggered else Err
  {
    hide Remove, InfoOf, AddDeps;
    DeploySquare(s, req.id, InfoOf(req));
    UndoDeploy(s, req.id, InfoOf(req), Deploy(s, req.id, InfoOf(req)).0);
  }

  /** A deploy without dependencies. */
  lemma PlainDeploy(s: State, req: DeployRequest, serverKnown: bool)
    requires Square(s) && req.id !in s.tasks && req.trigger != DEPS
    requires req.sourceType == "data" || req.sourceType == "endpoint"
    ensures HandleDeploy(s, req, serverKnown) ==
              if req.trigger != CREATE then (Deploy(s, req.id, InfoOf(req)).0, Deployed)
              else if serverKnown then (Deploy(s, req.id, InfoOf(req)).0, Triggered)
              else (s, Err)
  {
    if req.trigger == CREATE {
      CreateIsNeverBlocked(s, req, serverKnown);
      if !serverKnown { FailedDeployIsNoOp(s, req, serverKnown); }
    }
    hide Remove, InfoOf, AddDeps, Square;
  }
}
