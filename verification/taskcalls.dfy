/**
 The cluster under concurrent handlers.

 `deploy_task`, `add_deps`, `submit` and `remove_task` each take and release the manager's mutex,
 and `process` holds no lock between them.  So what many handlers do together is some sequence of
 these calls, and the theorems here are about every such sequence.  A request whose calls stand next
 to each other is the special case of `TaskRuns`.
 */
module TaskCalls {
  import opened Prelude
  import opened TaskManager
  import opened TaskRuns

  datatype Call =
    | DeployCall(id: U64, info: Taskinfo)
    | DepsCall(id: U64, deps: seq<U64>)
    | SubmitCall(id: U64)
    | RemoveCall(id: U64)

  /** The manager as written. */
  function Do(s: State, c: Call): State {
    match c
    case DeployCall(id, info) => Deploy(s, id, info).0
    case DepsCall(id, deps) => AddDeps(s, id, deps).0
    case SubmitCall(_) => s
    case RemoveCall(id) => Remove(s, id).0
  }

  /** The manager with a removal that renumbers. */
  function DoRenumbered(s: State, c: Call): State {
    if c.RemoveCall? then Renumbered(s, c.id) else Do(s, c)
  }

  function DoAbstract(a: Abstract, c: Call): Abstract {
    match c
    case DeployCall(id, _) => if id in a.deps then a else Joined(a, id)
    case DepsCall(id, deps) => if id in a.deps then Linked(a, id, Elements(LivePrefix(a.deps.Keys, deps))) else a
    case SubmitCall(_) => a
    case RemoveCall(id) => if id in a.deps then Removed(a, id) else a
  }

  const START := State([], map[])
  const NOTHING := Abstract([], map[])

  function RunFrom(s: State, calls: seq<Call>): State {
    if calls == [] then s else Do(RunFrom(s, calls[..|calls| - 1]), calls[|calls| - 1])
  }

  function RenumberedFrom(s: State, calls: seq<Call>): State {
    if calls == [] then s else DoRenumbered(RenumberedFrom(s, calls[..|calls| - 1]), calls[|calls| - 1])
  }

  function AbstractFrom(a: Abstract, calls: seq<Call>): Abstract {
    if calls == [] then a else DoAbstract(AbstractFrom(a, calls[..|calls| - 1]), calls[|calls| - 1])
  }

  // ---------- refinement ----------

  lemma CallRefines(s: State, a: Abstract, c: Call)
    requires Represents(s, a)
    ensures Represents(DoRenumbered(s, c), DoAbstract(a, c))
  {
    hide Represents, Deploy, AddDeps, Renumbered, Removed, Joined, Linked, Elements, LivePrefix;
    SameTasks(s, a);
    match c {
      case DeployCall(id, info) => DeployCallRefines(s, a, id, info);
      case DepsCall(id, deps) => DepsCallRefines(s, a, id, deps);
      case SubmitCall(_) =>
      case RemoveCall(id) => RenumberedOrKept(s, a, id);
    }
  }

  lemma DeployCallRefines(s: State, a: Abstract, id: U64, info: Taskinfo)
    requires Represents(s, a)
    ensures Represents(Deploy(s, id, info).0, if id in a.deps then a else Joined(a, id))
  {
    SameTasks(s, a);
    hide Represents, Joined;
    if id !in s.tasks {
      hide Deploy;
      DeployRefines(s, a, id, info);
    }
  }

  lemma DepsCallRefines(s: State, a: Abstract, id: U64, deps: seq<U64>)
    requires Represents(s, a)
    ensures Represents(AddDeps(s, id, deps).0,
                       if id in a.deps then Linked(a, id, Elements(LivePrefix(a.deps.Keys, deps))) else a)
  {
    SameTasks(s, a);
    hide Represents, Mark, Linked, Elements, LivePrefix;
    if id in s.tasks { MarksLivePrefix(s, a, id, deps); }
  }

  lemma SameTasks(s: State, a: Abstract)
    requires Represents(s, a)
    ensures s.tasks.Keys == a.deps.Keys
  {
    RepresentsRows(s, a);
  }

  lemma UnknownIsKept(s: State, id: U64)
    requires id !in s.tasks
    ensures Renumbered(s, id) == s && Remove(s, id).0 == s
  {
  }

  /** Over every sequence of calls, however handlers interleave, the matrix with renumbered removal
      is exactly the depends-on relation of the live tasks. */
  lemma {:induction false} EveryInterleavingRefines(s: State, a: Abstract, calls: seq<Call>)
    requires Represents(s, a)
    ensures Represents(RenumberedFrom(s, calls), AbstractFrom(a, calls))
  {
    hide Represents, DoRenumbered, DoAbstract;
    if calls != [] {
      var front := calls[..|calls| - 1];
      EveryInterleavingRefines(s, a, front);
      CallRefines(RenumberedFrom(s, front), AbstractFrom(a, front), calls[|calls| - 1]);
    }
  }

  lemma StartIsEmpty()
    ensures Represents(START, NOTHING)
  {
  }

  // ---------- the removal as written ----------

  predicate RemovesNewestRow(s: State, c: Call) { c.RemoveCall? ==> Newest(s, c.id) }

  /** Only the newest row is ever removed. */
  predicate LastIn(s: State, calls: seq<Call>) {
    calls != [] ==>
      var front := calls[..|calls| - 1];
      LastIn(s, front) && RemovesNewestRow(RunFrom(s, front), calls[|calls| - 1])
  }

  lemma CallExactly(s: State, a: Abstract, c: Call)
    requires Represents(s, a)
    ensures Represents(Do(s, c), DoAbstract(a, c)) <==> RemovesNewestRow(s, c)
    ensures RemovesNewestRow(s, c) ==> Do(s, c) == DoRenumbered(s, c)
  {
    CallRefines(s, a, c);
    SameTasks(s, a);
    hide Represents, Deploy, Mark, Remove, Renumbered, Removed, Joined, Linked, Elements, LivePrefix;
    if c.RemoveCall? { RemovalExactly(s, a, c.id); }
  }

  /** The code as written represents the relation all along a run if and only if the run only ever
      removes the newest row. */
  lemma {:induction false} LastInExactly(s: State, a: Abstract, calls: seq<Call>)
    requires Represents(s, a)
    ensures LastIn(s, calls) <==>
            forall n :: 0 <= n <= |calls| ==> Represents(RunFrom(s, calls[..n]), AbstractFrom(a, calls[..n]))
    ensures LastIn(s, calls) ==> RunFrom(s, calls) == RenumberedFrom(s, calls)
  {
    hide Represents, Do, DoRenumbered, DoAbstract, RemovesNewestRow;
    if calls == [] {
      assert calls[..0] == [];
    } else {
      var m := |calls| - 1;
      var front := calls[..m];
      LastInExactly(s, a, front);
      assert calls[..m + 1] == calls;
      assert forall n :: 0 <= n <= m ==> front[..n] == calls[..n];
      assert front[..m] == front;
      if Represents(RunFrom(s, front), AbstractFrom(a, front)) {
        CallExactly(RunFrom(s, front), AbstractFrom(a, front), calls[m]);
      }
      if forall n :: 0 <= n <= m ==> Represents(RunFrom(s, front[..n]), AbstractFrom(a, front[..n])) {
        assert LastIn(s, front);
        forall n | 0 <= n <= m ensures Represents(RunFrom(s, calls[..n]), AbstractFrom(a, calls[..n])) {
          assert front[..n] == calls[..n];
        }
      } else {
        var n :| 0 <= n <= m && !Represents(RunFrom(s, front[..n]), AbstractFrom(a, front[..n]));
        assert !Represents(RunFrom(s, calls[..n]), AbstractFrom(a, calls[..n]));
      }
    }
  }

  // ---------- deadlock ----------

  /** Every dependency `add_deps` marks was deployed before the task itself. */
  predicate GoesDown(s: State, c: Call) {
    c.DepsCall? && c.id in s.tasks ==>
      forall d :: d in LivePrefix(s.tasks.Keys, c.deps) ==> s.tasks[d].depPos < s.tasks[c.id].depPos
  }

  ghost predicate Below(tasks: map<U64, Taskinfo>, x: U64, ys: set<U64>) {
    forall y :: y in ys ==> x in tasks && y in tasks && tasks[y].depPos < tasks[x].depPos
  }

  /** Every dependency has a smaller position. */
  ghost predicate Downward(tasks: map<U64, Taskinfo>, deps: map<U64, set<U64>>) {
    forall x :: x in deps ==> Below(tasks, x, deps[x])
  }

  lemma LowerExactly(s: State, a: Abstract)
    requires Represents(s, a)
    ensures Lower(s.edges) <==> Downward(s.tasks, a.deps)
  {
    if Lower(s.edges) {
      forall x, y | x in a.deps && y in a.deps[x]
        ensures x in s.tasks && y in s.tasks && s.tasks[y].depPos < s.tasks[x].depPos
      {
        EdgeGoesDown(s, a, x, y);
      }
    }
    if Downward(s.tasks, a.deps) {
      forall i, j | 0 <= i < |s.edges| && 0 <= j < |s.edges[i]| && s.edges[i][j] ensures j < i {
        assert a.order[j] in a.deps[a.order[i]];
        assert Below(s.tasks, a.order[i], a.deps[a.order[i]]);
      }
    }
  }

  lemma BelowBoth(tasks: map<U64, Taskinfo>, x: U64, ys: set<U64>, zs: set<U64>)
    ensures Below(tasks, x, ys + zs) <==> Below(tasks, x, ys) && Below(tasks, x, zs)
  {
  }

  lemma DepsDownwardExactly(tasks: map<U64, Taskinfo>, a: Abstract, id: U64, ids: set<U64>)
    requires Downward(tasks, a.deps) && id in a.deps && id in tasks && ids <= tasks.Keys
    ensures Downward(tasks, Linked(a, id, ids).deps) <==> forall d :: d in ids ==> tasks[d].depPos < tasks[id].depPos
  {
    BelowBoth(tasks, id, a.deps[id], ids);
    assert Below(tasks, id, ids) <==> forall d :: d in ids ==> tasks[d].depPos < tasks[id].depPos;
    hide Below;
    var deps := Linked(a, id, ids).deps;
    assert id in deps && deps[id] == a.deps[id] + ids;
    assert forall x :: x in deps && x != id ==> x in a.deps && deps[x] == a.deps[x];
    if Below(tasks, id, ids) {
      forall x | x in deps ensures Below(tasks, x, deps[x]) {
        assert Below(tasks, x, a.deps[x]);
      }
    }
  }

  /** `add_deps` keeps the matrix strictly lower triangular if and only if every edge it marks goes
      to a task with a smaller position. */
  lemma AddDepsLowerExactly(s: State, a: Abstract, id: U64, deps: seq<U64>)
    requires Represents(s, a) && Lower(s.edges) && id in s.tasks
    ensures Lower(AddDeps(s, id, deps).0.edges) <==> GoesDown(s, DepsCall(id, deps))
  {
    hide Represents, Mark, Lower, Downward, LivePrefix, Linked, Elements;
    SameTasks(s, a);
    MarksLivePrefix(s, a, id, deps);
    var live := Elements(LivePrefix(s.tasks.Keys, deps));
    var s', a' := AddDeps(s, id, deps).0, Linked(a, id, live);
    LowerExactly(s, a);
    LowerExactly(s', a');
    ElementsAre(LivePrefix(s.tasks.Keys, deps));
    DepsDownwardExactly(s.tasks, a, id, live);
  }

  lemma ElementsAre(ids: seq<U64>)
    ensures forall d :: d in ids <==> d in Elements(ids)
  {
  }

  lemma CallLowerExactly(s: State, a: Abstract, c: Call)
    requires Represents(s, a) && Lower(s.edges)
    ensures Lower(DoRenumbered(s, c).edges) <==> GoesDown(s, c)
  {
    match c {
      case DeployCall(id, info) => if id !in s.tasks { DeployLower(s, a, id, info); }
      case DepsCall(id, deps) => if id in s.tasks { hide Represents, Mark, LivePrefix; AddDepsLowerExactly(s, a, id, deps); }
      case SubmitCall(_) =>
      case RemoveCall(id) => if id in s.tasks { RepresentsRows(s, a); LowerCut(s, id); } else { UnknownIsKept(s, id); }
    }
  }

  /** Every `add_deps` of the run goes down at its time. */
  ghost predicate AllGoDown(calls: seq<Call>) {
    forall n :: 0 <= n < |calls| ==> GoesDown(RenumberedFrom(START, calls[..n]), calls[n])
  }

  /** The matrix is strictly lower triangular all along the run. */
  ghost predicate StaysLower(calls: seq<Call>) {
    forall n :: 0 <= n <= |calls| ==> Lower(RenumberedFrom(START, calls[..n]).edges)
  }

  lemma AllGoDownPush(calls: seq<Call>, c: Call)
    ensures AllGoDown(calls + [c]) <==> AllGoDown(calls) && GoesDown(RenumberedFrom(START, calls), c)
  {
    hide GoesDown, RenumberedFrom;
    var all := calls + [c];
    assert all[..|calls|] == calls && all[|calls|] == c;
    assert forall n :: 0 <= n < |calls| ==> all[..n] == calls[..n] && all[n] == calls[n];
  }

  lemma StaysLowerPush(calls: seq<Call>, c: Call)
    ensures StaysLower(calls + [c]) <==> StaysLower(calls) && Lower(RenumberedFrom(START, calls + [c]).edges)
  {
    hide Lower, RenumberedFrom;
    var all := calls + [c];
    assert all[..|all|] == all;
    assert forall n :: 0 <= n <= |calls| ==> all[..n] == calls[..n];
  }

  lemma LowerAtTheEnd(calls: seq<Call>)
    requires StaysLower(calls)
    ensures Lower(RenumberedFrom(START, calls).edges)
  {
    assert calls[..|calls|] == calls;
  }

  /** Over every interleaving, the matrix stays strictly lower triangular all along if and only if
      every `add_deps` goes down.  Acyclicity and a submittable task follow, as in `TaskRuns`. */
  lemma {:induction false} InterleavingLowerExactly(calls: seq<Call>)
    ensures AllGoDown(calls) <==> StaysLower(calls)
  {
    if calls == [] {
      EmptyIsLower();
    } else {
      hide DoRenumbered, GoesDown, Lower, AllGoDown, StaysLower, Represents;
      var m := |calls| - 1;
      var front := calls[..m];
      assert calls == front + [calls[m]];
      InterleavingLowerExactly(front);
      AllGoDownPush(front, calls[m]);
      StaysLowerPush(front, calls[m]);
      StartIsEmpty();
      EveryInterleavingRefines(START, NOTHING, front);
      if StaysLower(front) {
        LowerAtTheEnd(front);
        CallLowerExactly(RenumberedFrom(START, front), AbstractFrom(NOTHING, front), calls[m]);
      }
    }
  }

  lemma EmptyIsLower()
    ensures Lower(START.edges)
  {
  }

  /** So in such a run a non-empty task set always has a task that can be submitted: the oldest. */
  lemma NoDeadlock(calls: seq<Call>)
    requires AllGoDown(calls) && RenumberedFrom(START, calls).tasks != map[]
    ensures var t, a := RenumberedFrom(START, calls), AbstractFrom(NOTHING, calls);
            a.order != [] && a.order[0] in t.tasks && Submit(t, a.order[0], true) == Done
  {
    hide *;
    InterleavingLowerExactly(calls);
    LowerAtTheEnd(calls);
    StartIsEmpty();
    EveryInterleavingRefines(START, NOTHING, calls);
    OldestIsFree(RenumberedFrom(START, calls), AbstractFrom(NOTHING, calls));
  }

  /** A handler whose `add_deps` finds its task still the newest goes down, unless the task names itself. */
  lemma NewestGoesDown(s: State, a: Abstract, id: U64, deps: seq<U64>)
    requires Represents(s, a) && id in s.tasks && Newest(s, id) && id !in deps
    ensures GoesDown(s, DepsCall(id, deps))
  {
    hide LivePrefix, Matrix, Closed, Rows;
    var order := a.order;
    forall d | d in LivePrefix(s.tasks.Keys, deps) ensures s.tasks[d].depPos < s.tasks[id].depPos {
      assert d in s.tasks && d in deps && d != id;
      assert order[s.tasks[d].depPos] == d && order[s.tasks[id].depPos] == id;
    }
  }

  function BothDeployed(one: Taskinfo, two: Taskinfo): seq<Call> {
    [DeployCall(1, one), DeployCall(2, two)]
  }

  /** Two deploys at once, each naming the other: both succeed, and neither can be submitted. */
  lemma CrossedDeploysDeadlock(one: Taskinfo, two: Taskinfo)
    ensures var calls := BothDeployed(one, two);
            var crossed := calls + [DepsCall(1, [2])];
            var s := RunFrom(START, crossed + [DepsCall(2, [1])]);
            && AddDeps(RunFrom(START, calls), 1, [2]).1 == Done
            && AddDeps(RunFrom(START, crossed), 2, [1]).1 == Done
            && s == State([[false, true], [true, false]], map[1 := one.(depPos := 0), 2 := two.(depPos := 1)])
            && !Lower(s.edges) && Submit(s, 1, true) == Rejected && Submit(s, 2, true) == Rejected
  {
    var s := TwoDeployed(one, two);
    var s1 := State([[false, true], [false, false]], s.tasks);
    var s2 := State([[false, true], [true, false]], s.tasks);
    CrossedMarks(s, s1, s2);
    BothBlocked(s2);
    hide *;
    RunThen(START, BothDeployed(one, two), DepsCall(1, [2]));
    RunThen(START, BothDeployed(one, two) + [DepsCall(1, [2])], DepsCall(2, [1]));
    DoesItsCall(s, 1, [2]);
    DoesItsCall(s1, 2, [1]);
  }

  lemma CrossedMarks(s: State, s1: State, s2: State)
    requires s.edges == [[false, false], [false, false]] && s1.edges == [[false, true], [false, false]]
    requires s2.edges == [[false, true], [true, false]] && s.tasks == s1.tasks == s2.tasks
    requires 1 in s.tasks && 2 in s.tasks && s.tasks[1].depPos == 0 && s.tasks[2].depPos == 1
    ensures AddDeps(s, 1, [2]) == (s1, Done) && AddDeps(s1, 2, [1]) == (s2, Done)
  {
    MarkOnly(s, 0, 2);
    MarkOnly(s1, 1, 1);
    assert s.edges[0][1 := true] == [false, true] && s1.edges[1][0 := true] == [true, false];
    assert s.edges[0 := [false, true]] == s1.edges && s1.edges[1 := [true, false]] == s2.edges;
  }

  lemma BothBlocked(s: State)
    requires s.edges == [[false, true], [true, false]]
    requires 1 in s.tasks && 2 in s.tasks && s.tasks[1].depPos == 0 && s.tasks[2].depPos == 1
    ensures !Lower(s.edges) && Submit(s, 1, true) == Rejected && Submit(s, 2, true) == Rejected
  {
    assert s.edges[0][1] && s.edges[1][0];
  }

  /** Two deploys at once: the rollback of the first is not the newest row's, and the second can never
      be submitted although it waits for nothing. */
  lemma InterleavedRollbackFails(one: Taskinfo, two: Taskinfo)
    ensures var calls := BothDeployed(one, two);
            var s := RunFrom(START, calls + [DepsCall(1, [9])] + [RemoveCall(1)]);
            && AddDeps(RunFrom(START, calls), 1, [9]).1 == Rejected
            && s == State([[false]], map[2 := two.(depPos := 1)]) && Submit(s, 2, true) == Throws
  {
    var s := TwoDeployed(one, two);
    AddsNothing(s, 1, 9);
    FirstRowRemoved(s, one, two);
    hide *;
    RunThen(START, BothDeployed(one, two), DepsCall(1, [9]));
    RunThen(START, BothDeployed(one, two) + [DepsCall(1, [9])], RemoveCall(1));
    DoesItsCall(s, 1, [9]);
    PastTheEnd(two);
  }

  lemma PastTheEnd(two: Taskinfo)
    ensures Submit(State([[false]], map[2 := two.(depPos := 1)]), 2, true) == Throws
  {
  }

  lemma DoesItsCall(s: State, id: U64, deps: seq<U64>)
    ensures Do(s, DepsCall(id, deps)) == AddDeps(s, id, deps).0 && Do(s, RemoveCall(id)) == Remove(s, id).0
  {
  }

  lemma AddsNothing(s: State, id: U64, missing: U64)
    requires id in s.tasks && missing !in s.tasks
    ensures AddDeps(s, id, [missing]) == (s, Rejected)
  {
    MarkOnly(s, s.tasks[id].depPos, missing);
  }

  lemma FirstRowRemoved(s: State, one: Taskinfo, two: Taskinfo)
    requires s == State([[false, false], [false, false]], map[1 := one.(depPos := 0), 2 := two.(depPos := 1)])
    ensures Remove(s, 1).0 == State([[false]], map[2 := two.(depPos := 1)])
  {
    assert Cut(s.edges, 0) == [[false, false]] && Cut([false, false], 0) == [false];
    assert CutColumn([[false, false]], 0) == [[false]];
    assert Erasable(s.edges, 0);
    assert s.tasks - {1} == map[2 := two.(depPos := 1)];
  }

  lemma TwoDeployed(one: Taskinfo, two: Taskinfo) returns (s: State)
    ensures s == State([[false, false], [false, false]], map[1 := one.(depPos := 0), 2 := two.(depPos := 1)])
    ensures RunFrom(START, BothDeployed(one, two)) == s
  {
    s := State([[false, false], [false, false]], map[1 := one.(depPos := 0), 2 := two.(depPos := 1)]);
    assert BothDeployed(one, two) == [] + [DeployCall(1, one)] + [DeployCall(2, two)];
    FirstDeployed(one);
    SecondDeployed(one, two);
    assert RunFrom(START, []) == START;
    var s1 := State([[false]], map[1 := one.(depPos := 0)]);
    assert Do(START, DeployCall(1, one)) == s1 && Do(s1, DeployCall(2, two)) == s;
    hide *;
    RunThen(START, [], DeployCall(1, one));
    RunThen(START, [] + [DeployCall(1, one)], DeployCall(2, two));
  }

  lemma FirstDeployed(one: Taskinfo)
    ensures Deploy(START, 1, one).0 == State([[false]], map[1 := one.(depPos := 0)])
  {
    assert Falses(1) == [false] && Widened([]) == [];
  }

  lemma SecondDeployed(one: Taskinfo, two: Taskinfo)
    ensures Deploy(State([[false]], map[1 := one.(depPos := 0)]), 2, two).0
         == State([[false, false], [false, false]], map[1 := one.(depPos := 0), 2 := two.(depPos := 1)])
  {
    var w := Widened([[false]]);
    assert |w| == 1 && w[0] == [false] + [false] == [false, false];
    assert w == [w[0]];
    assert Falses(2) == [false, false];
  }

  lemma MarkOnly(s: State, row: nat, dep: U64)
    ensures Mark(s, row, [dep]) ==
              if dep !in s.tasks then (s, Rejected)
              else
                var col := s.tasks[dep].depPos;
                if row >= |s.edges| || col >= |s.edges[row]| then (s, Throws)
                else (s.(edges := s.edges[row := s.edges[row][col := true]]), Done)
  {
    assert [] + [dep] == [dep];
    MarkNothing(s, row);
    MarkStep(s, row, [], dep);
  }

  // ---------- rollback among other handlers ----------

  /** The call names the task: deploys, removes or waits for it. */
  predicate Names(c: Call, id: U64) {
    match c
    case DeployCall(x, _) => x == id
    case DepsCall(x, deps) => x != id && id in deps
    case SubmitCall(_) => false
    case RemoveCall(x) => x == id
  }

  /** The handler's own `add_deps`. */
  predicate Own(c: Call, id: U64) { c.DepsCall? && c.id == id }

  /** The calls of the others. */
  function Others(calls: seq<Call>, id: U64): seq<Call> {
    if calls == [] then []
    else
      var c := calls[|calls| - 1];
      Others(calls[..|calls| - 1], id) + if Own(c, id) then [] else [c]
  }

  /** Live tasks once each, and dependencies among them. */
  ghost predicate Proper(a: Abstract) {
    Closed(a) && forall i, j :: 0 <= i < j < |a.order| ==> a.order[i] != a.order[j]
  }

  lemma RepresentsProper(s: State, a: Abstract)
    requires Represents(s, a)
    ensures Proper(a)
  {
    Distinct(s, a.order);
  }

  lemma {:induction false} WithoutSwaps(order: seq<U64>, x: U64, y: U64)
    ensures Without(Without(order, x), y) == Without(Without(order, y), x)
  {
    if order != [] { WithoutSwaps(order[1..], x, y); }
  }

  lemma {:induction false} WithoutPush(order: seq<U64>, id: U64, x: U64)
    requires id in order
    ensures Without(order + [x], id) == Without(order, id) + [x]
  {
    if order[0] != id {
      WithoutPush(order[1..], id, x);
      assert (order + [x])[1..] == order[1..] + [x];
    } else {
      assert (order + [x])[1..] == order[1..] + [x];
    }
  }

  lemma {:induction false} PrefixIgnores(live: set<U64>, id: U64, deps: seq<U64>)
    requires id !in deps
    ensures LivePrefix(live, deps) == LivePrefix(live - {id}, deps)
  {
    if deps != [] { PrefixIgnores(live, id, deps[..|deps| - 1]); }
  }

  lemma ForgottenKeys(deps: map<U64, set<U64>>, id: U64)
    ensures Forgotten(deps, id).Keys == deps.Keys - {id}
  {
  }

  lemma ForgottenSwaps(deps: map<U64, set<U64>>, x: U64, y: U64)
    ensures Forgotten(Forgotten(deps, x), y) == Forgotten(Forgotten(deps, y), x)
    ensures y in deps && x != y ==> y in Forgotten(deps, x) && (deps[y] == {} ==> Forgotten(deps, x)[y] == {})
  {
    forall z | z in deps ensures deps[z] - {x} - {y} == deps[z] - {y} - {x} {}
  }

  lemma ForgottenLinked(deps: map<U64, set<U64>>, id: U64, x: U64, ids: set<U64>)
    requires x in deps && x != id && id !in ids
    ensures x in Forgotten(deps, id)
    ensures Forgotten(deps[x := deps[x] + ids], id) == Forgotten(deps, id)[x := Forgotten(deps, id)[x] + ids]
  {
    assert (deps[x] + ids) - {id} == (deps[x] - {id}) + ids;
  }

  lemma ForgottenOwn(deps: map<U64, set<U64>>, id: U64, ids: set<U64>)
    ensures Forgotten(deps[id := ids], id) == Forgotten(deps, id)
  {
  }

  lemma ForgottenNew(deps: map<U64, set<U64>>, id: U64, x: U64)
    requires x !in deps && x != id
    ensures Forgotten(deps[x := {}], id) == Forgotten(deps, id)[x := {}]
  {
    var none: set<U64> := {};
    assert none - {id} == none;
    assert Forgotten(deps[x := none], id) == Forgotten(deps, id)[x := none];
  }

  /** Forgetting a task commutes with every call that does not name it. */
  lemma ForgettingCommutes(a: Abstract, id: U64, c: Call)
    requires Proper(a) && id in a.deps && !Names(c, id)
    ensures id in DoAbstract(a, c).deps
    ensures Removed(DoAbstract(a, c), id) ==
              if Own(c, id) then Removed(a, id) else DoAbstract(Removed(a, id), c)
    ensures !Own(c, id) && a.deps[id] == {} ==> DoAbstract(a, c).deps[id] == {}
  {
    ForgottenKeys(a.deps, id);
    hide Forgotten, Without;
    match c {
      case DeployCall(x, _) =>
        if x !in a.deps {
          WithoutPush(a.order, id, x);
          ForgottenNew(a.deps, id, x);
        }
      case DepsCall(x, deps) =>
        var ids := Elements(LivePrefix(a.deps.Keys, deps));
        if x == id {
          ForgottenOwn(a.deps, id, a.deps[id] + ids);
        } else if x in a.deps {
          PrefixIgnores(a.deps.Keys, id, deps);
          ForgottenLinked(a.deps, id, x, ids);
        }
      case SubmitCall(_) =>
      case RemoveCall(x) =>
        if x in a.deps {
          WithoutSwaps(a.order, x, id);
          ForgottenSwaps(a.deps, x, id);
        }
    }
  }

  lemma {:induction false} WithoutNew(order: seq<U64>, id: U64)
    requires id !in order
    ensures Without(order + [id], id) == order
  {
    if order != [] {
      WithoutNew(order[1..], id);
      assert (order + [id])[1..] == order[1..] + [id];
    }
  }

  lemma JoinedThenRemoved(a: Abstract, id: U64)
    requires Closed(a) && id !in a.deps
    ensures Removed(Joined(a, id), id) == a
  {
    WithoutNew(a.order, id);
    forall x | x in a.deps ensures a.deps[x] - {id} == a.deps[x] {
      assert id !in a.deps[x];
    }
    assert Forgotten(a.deps[id := {}], id) == a.deps;
  }

  lemma {:induction false} ForgettingRunCommutes(t: State, b: Abstract, id: U64, calls: seq<Call>)
    requires Represents(t, b) && id in b.deps
    requires forall c :: c in calls ==> !Names(c, id)
    ensures id in AbstractFrom(b, calls).deps
    ensures Removed(AbstractFrom(b, calls), id) == AbstractFrom(Removed(b, id), Others(calls, id))
    ensures b.deps[id] == {} && (forall c :: c in calls ==> !Own(c, id)) ==> AbstractFrom(b, calls).deps[id] == {}
  {
    if calls != [] {
      hide Represents, Proper, Do, DoAbstract, DoRenumbered, Removed, Names, Own;
      var front, c := calls[..|calls| - 1], calls[|calls| - 1];
      assert calls == front + [c];
      ForgettingRunCommutes(t, b, id, front);
      EveryInterleavingRefines(t, b, front);
      RepresentsProper(RenumberedFrom(t, front), AbstractFrom(b, front));
      ForgettingCommutes(AbstractFrom(b, front), id, c);
      AbstractPush(Removed(b, id), Others(front, id), c);
    }
  }

  lemma AbstractPush(a: Abstract, calls: seq<Call>, c: Call)
    ensures AbstractFrom(a, calls + [c]) == DoAbstract(AbstractFrom(a, calls), c)
    ensures calls + [] == calls
  {
  }

  /** Whatever other handlers do between a deploy and its rollback, the relation after the rollback is
      the one their calls alone would have made, provided they do not name the task; and until its
      own `add_deps` the task waits for nothing. */
  lemma RollbackAmongOthers(s: State, a: Abstract, id: U64, info: Taskinfo, calls: seq<Call>)
    requires Represents(s, a) && id !in s.tasks
    requires forall c :: c in calls ==> !Names(c, id)
    ensures var t := RenumberedFrom(Deploy(s, id, info).0, calls);
            && id in t.tasks
            && Represents(Renumbered(t, id), AbstractFrom(a, Others(calls, id)))
            && (Represents(Remove(t, id).0, AbstractFrom(a, Others(calls, id))) <==> Newest(t, id))
            && ((forall c :: c in calls ==> !Own(c, id)) ==> Submit(t, id, true) == Done)
  {
    var b := Joined(a, id);
    assert id in b.deps && b.deps[id] == {};
    SameTasks(s, a);
    RepresentsProper(s, a);
    JoinedThenRemoved(a, id);
    DeployRefines(s, a, id, info);
    hide *;
    var d := Deploy(s, id, info).0;
    var t, b' := RenumberedFrom(d, calls), AbstractFrom(b, calls);
    EveryInterleavingRefines(d, b, calls);
    SameTasks(t, b');
    ForgettingRunCommutes(d, b, id, calls);
    RenumberedRefines(t, b', id);
    RemovalExactly(t, b', id);
    SubmitBlockedExactly(t, b', id, true);
  }

  // ---------- requests handled one at a time ----------

  /** The calls of one event when no other handler's calls come between them. */
  function CallsOf(s: State, e: Event): seq<Call> {
    match e
    case DeployEv(req, known) =>
      if req.sourceType != "data" && req.sourceType != "endpoint" then []
      else
        var deploy := DeployCall(req.id, InfoOf(req));
        var (s1, judge) := Deploy(s, req.id, InfoOf(req));
        if judge == Rejected then [deploy]
        else if req.trigger == CREATE then
          [deploy, SubmitCall(req.id)] + if Submit(s1, req.id, known) == Rejected then [RemoveCall(req.id)] else []
        else if req.trigger == DEPS then
          [deploy, DepsCall(req.id, req.deps)]
          + if AddDeps(s1, req.id, req.deps).1 == Rejected then [RemoveCall(req.id)] else []
        else [deploy]
    case Trigger(id) => [SubmitCall(id)]
    case Terminate(id) => [RemoveCall(id)]
    case Finished(id) => [RemoveCall(id)]
  }

  function AllCalls(events: seq<Event>): seq<Call> {
    if events == [] then []
    else AllCalls(events[..|events| - 1]) + CallsOf(Run(events[..|events| - 1]), events[|events| - 1])
  }

  lemma RunOne(s: State, c: Call)
    ensures RunFrom(s, [c]) == Do(s, c)
  {
    assert [c][..0] == [];
  }

  lemma {:induction false} RunConcat(s: State, a: seq<Call>, b: seq<Call>)
    ensures RunFrom(s, a + b) == RunFrom(RunFrom(s, a), b)
  {
    hide Do;
    if b == [] {
      assert a + b == a && RunFrom(RunFrom(s, a), []) == RunFrom(s, a);
    } else {
      hide RunFrom;
      var front, last := b[..|b| - 1], b[|b| - 1];
      assert b == front + [last];
      RunConcat(s, a, front);
      Assoc(a, front, [last]);
      RunThen(s, a + front, last);
      RunThen(RunFrom(s, a), front, last);
    }
  }

  /** `add_deps` has three outcomes. */
  lemma {:induction false} MarkStatus(s: State, row: nat, deps: seq<U64>)
    ensures Mark(s, row, deps).1 in {Done, Rejected, Throws}
  {
    if deps != [] { MarkStatus(s, row, deps[..|deps| - 1]); }
  }

  /** A request whose calls stand next to each other does what the whole request does in one step. */
  lemma EventIsItsCalls(s: State, e: Event)
    ensures RunFrom(s, CallsOf(s, e)) == Step(s, e)
  {
    hide RunFrom;
    if e.DeployEv? {
      hide Mark, InfoOf, Remove, Deploy;
      var req := e.req;
      var c1 := DeployCall(req.id, InfoOf(req));
      var s1 := Deploy(s, req.id, InfoOf(req)).0;
      RunFew(s, c1, SubmitCall(req.id), RemoveCall(req.id));
      RunFew(s, c1, DepsCall(req.id, req.deps), RemoveCall(req.id));
      if req.id in s1.tasks { MarkStatus(s1, s1.tasks[req.id].depPos, req.deps); }
    } else {
      RunOne(s, CallsOf(s, e)[0]);
    }
  }

  lemma RunFew(s: State, c1: Call, c2: Call, c3: Call)
    ensures RunFrom(s, []) == s && RunFrom(s, [c1]) == Do(s, c1)
    ensures RunFrom(s, [c1, c2]) == Do(Do(s, c1), c2)
    ensures RunFrom(s, [c1, c2] + []) == Do(Do(s, c1), c2)
    ensures RunFrom(s, [c1, c2] + [c3]) == Do(Do(Do(s, c1), c2), c3)
  {
    assert [c1] + [c2] == [c1, c2] && [c1, c2] + [] == [c1, c2];
    RunOne(s, c1);
    hide Do;
    RunThen(s, [c1], c2);
    RunThen(s, [c1, c2], c3);
  }

  lemma RunThen(s: State, calls: seq<Call>, c: Call)
    ensures RunFrom(s, calls + [c]) == Do(RunFrom(s, calls), c)
  {
  }

  /** The runs of `TaskRuns` are the runs here in which no two requests interleave. */
  lemma {:induction false} RequestsAreCalls(events: seq<Event>)
    ensures Run(events) == RunFrom(START, AllCalls(events))
  {
    if events != [] {
      hide Step, CallsOf;
      var front := events[..|events| - 1];
      RequestsAreCalls(front);
      RunConcat(START, AllCalls(front), CallsOf(Run(front), events[|events| - 1]));
      EventIsItsCalls(Run(front), events[|events| - 1]);
    }
  }
}
