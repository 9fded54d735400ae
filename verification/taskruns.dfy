/**
 What the dependency matrix means, and what it means over runs of the cluster that handle one request
 at a time; `TaskCalls` takes the requests apart.

 The abstract state is the list of live tasks in deployment order and, for each of them, the set
 of live tasks it waits for.  `remove_task` does not renumber the rows after the one it erases;
 `Renumbered` is the removal that does.  The two agree exactly on the newest row.  The run theorems
 hold for renumbered removal, hence for the removal as written in runs that only ever remove the
 newest row.
 */
module TaskRuns {
  import opened Prelude
  import opened TaskManager

  datatype Abstract = Abstract(order: seq<U64>, deps: map<U64, set<U64>>)

  /** `dep_pos` is a bijection from the live tasks to the rows: row `i` is the `i`-th deployed. */
  ghost predicate Positions(s: State, order: seq<U64>) {
    && |order| == |s.tasks|
    && (forall i :: 0 <= i < |order| ==> order[i] in s.tasks && s.tasks[order[i]].depPos == i)
    && (forall a :: a in s.tasks ==> s.tasks[a].depPos < |order| && order[s.tasks[a].depPos] == a)
  }

  ghost predicate Rows(s: State, n: nat) {
    |s.edges| == n && forall i :: 0 <= i < n ==> |s.edges[i]| == n
  }

  /** The matrix is the depends-on relation. */
  ghost predicate Matrix(edges: seq<seq<bool>>, a: Abstract) {
    && |edges| == |a.order|
    && (forall i :: 0 <= i < |a.order| ==> a.order[i] in a.deps && |edges[i]| == |a.order|)
    && (forall i, j :: 0 <= i < |a.order| && 0 <= j < |a.order| ==>
          (edges[i][j] <==> a.order[j] in a.deps[a.order[i]]))
  }

  ghost predicate Closed(a: Abstract) {
    && (forall x :: x in a.deps <==> x in a.order)
    && (forall x :: x in a.deps ==> a.deps[x] <= a.deps.Keys)
  }

  ghost predicate Represents(s: State, a: Abstract) {
    Rows(s, |s.tasks|) && Positions(s, a.order) && Closed(a) && Matrix(s.edges, a)
  }

  // ---------- deploy and add_deps ----------

  function Joined(a: Abstract, id: U64): Abstract {
    Abstract(a.order + [id], a.deps[id := {}])
  }

  lemma DeployPositions(s: State, order: seq<U64>, id: U64, info: Taskinfo)
    requires Rows(s, |s.tasks|) && Positions(s, order) && id !in s.tasks
    ensures var s' := Deploy(s, id, info).0;
            |s'.tasks| == |s.tasks| + 1 && Rows(s', |s'.tasks|) && Positions(s', order + [id])
  {
    assert |s.tasks[id := info.(depPos := |s.tasks|)]| == |s.tasks| + 1;
  }

  lemma DeployMatrix(edges: seq<seq<bool>>, a: Abstract, id: U64)
    requires Matrix(edges, a) && Closed(a) && id !in a.deps
    ensures Matrix(Widened(edges) + [Falses(|a.order| + 1)], Joined(a, id)) && Closed(Joined(a, id))
  {
    var edges', a' := Widened(edges) + [Falses(|a.order| + 1)], Joined(a, id);
    forall i, j | 0 <= i < |a'.order| && 0 <= j < |a'.order|
      ensures a'.order[i] in a'.deps && |edges'[i]| == |a'.order|
      ensures edges'[i][j] <==> a'.order[j] in a'.deps[a'.order[i]]
    {
      if i < |a.order| && j < |a.order| {
        assert edges[i][j] <==> a.order[j] in a.deps[a.order[i]];
      }
    }
    assert a'.order[|a.order|] == id;
  }

  lemma DeployRefines(s: State, a: Abstract, id: U64, info: Taskinfo)
    requires Represents(s, a) && id !in s.tasks
    ensures Represents(Deploy(s, id, info).0, Joined(a, id))
  {
    RepresentsRows(s, a);
    DeployPositions(s, a.order, id, info);
    DeployMatrix(s.edges, a, id);
    assert |s.tasks[id := info.(depPos := |s.tasks|)]| == |s.tasks| + 1;
    hide Positions, Matrix, Closed, Rows, Joined, Widened, Falses;
  }

  function Elements(ids: seq<U64>): set<U64> { set x | x in ids }

  function Linked(a: Abstract, id: U64, ids: set<U64>): Abstract
    requires id in a.deps
  {
    a.(deps := a.deps[id := a.deps[id] + ids])
  }

  lemma MarkOne(edges: seq<seq<bool>>, a: Abstract, row: nat, col: nat)
    requires Matrix(edges, a) && row < |a.order| && col < |a.order|
    requires forall i, j :: 0 <= i < j < |a.order| ==> a.order[i] != a.order[j]
    ensures Matrix(edges[row := edges[row][col := true]], Linked(a, a.order[row], {a.order[col]}))
  {
  }

  lemma Distinct(s: State, order: seq<U64>)
    requires Positions(s, order)
    ensures forall i, j :: 0 <= i < j < |order| ==> order[i] != order[j]
  {
  }

  lemma MarkStep(s: State, row: nat, ids: seq<U64>, dep: U64)
    ensures var (s1, status) := Mark(s, row, ids);
            Mark(s, row, ids + [dep]) ==
              if status != Done then (s1, status)
              else if dep !in s.tasks then (s1, Rejected)
              else
                var col := s.tasks[dep].depPos;
                if row >= |s1.edges| || col >= |s1.edges[row]| then (s1, Throws)
                else (s1.(edges := s1.edges[row := s1.edges[row][col := true]]), Done)
  {
    assert (ids + [dep])[..|ids|] == ids;
  }

  /** The dependencies before the first that is not live: the ones `add_deps` marks. */
  function LivePrefix(live: set<U64>, deps: seq<U64>): (r: seq<U64>)
    ensures forall d :: d in r ==> d in live && d in deps
  {
    if deps == [] then []
    else
      var front := deps[..|deps| - 1];
      var r := LivePrefix(live, front);
      if r == front && deps[|deps| - 1] in live then deps else r
  }

  lemma LivePrefixPush(live: set<U64>, deps: seq<U64>, d: U64)
    ensures LivePrefix(live, deps + [d]) ==
              if LivePrefix(live, deps) == deps && d in live then deps + [d] else LivePrefix(live, deps)
  {
    assert (deps + [d])[..|deps|] == deps;
  }

  /** `add_deps` marks the live prefix, and succeeds exactly when that is the whole list. */
  lemma {:induction false} MarksLivePrefix(s: State, a: Abstract, id: U64, ids: seq<U64>)
    requires Represents(s, a) && id in s.tasks && id in a.deps
    ensures var (s', status) := Mark(s, s.tasks[id].depPos, ids);
            var p := LivePrefix(s.tasks.Keys, ids);
            && s'.tasks == s.tasks
            && (status == if p == ids then Done else Rejected)
            && Represents(s', Linked(a, id, Elements(p)))
  {
    hide Represents, Linked, Elements, Mark, LivePrefix;
    var row, live := s.tasks[id].depPos, s.tasks.Keys;
    if ids == [] {
      LinkedNothing(a, id);
      MarkNothing(s, row);
      assert LivePrefix(live, []) == [] by { NoPrefix(live); }
    } else {
      var front, dep := ids[..|ids| - 1], ids[|ids| - 1];
      assert ids == front + [dep];
      MarksLivePrefix(s, a, id, front);
      MarkStep(s, row, front, dep);
      LivePrefixPush(live, front, dep);
      PrefixIsShorter(live, front);
      var (s1, status) := Mark(s, row, front);
      if status == Done && dep in s.tasks {
        ElementsPush(front, dep);
        LinkedTwice(a, id, Elements(front), {dep});
        LinkOne(s1, Linked(a, id, Elements(front)), id, dep);
      }
    }
  }

  lemma NoPrefix(live: set<U64>)
    ensures LivePrefix(live, []) == []
  {
  }

  lemma {:induction false} PrefixIsShorter(live: set<U64>, deps: seq<U64>)
    ensures |LivePrefix(live, deps)| <= |deps|
  {
    if deps != [] { PrefixIsShorter(live, deps[..|deps| - 1]); }
  }

  lemma {:induction false} WholePrefixExactly(live: set<U64>, deps: seq<U64>)
    ensures LivePrefix(live, deps) == deps <==> Elements(deps) <= live
  {
    if deps != [] {
      var front, dep := deps[..|deps| - 1], deps[|deps| - 1];
      assert deps == front + [dep];
      WholePrefixExactly(live, front);
      PrefixIsShorter(live, front);
      ElementsPush(front, dep);
      hide Elements;
      assert Elements(deps) <= live <==> Elements(front) <= live && dep in live;
    }
  }

  /** Nothing throws: `add_deps` fails exactly when a dependency is missing. */
  lemma MarkRefines(s: State, a: Abstract, id: U64, ids: seq<U64>)
    requires Represents(s, a) && id in s.tasks && id in a.deps
    ensures var (s', status) := Mark(s, s.tasks[id].depPos, ids);
            && s'.tasks == s.tasks
            && (status == if Elements(ids) <= s.tasks.Keys then Done else Rejected)
            && (status == Done ==> Represents(s', Linked(a, id, Elements(ids))))
  {
    hide Represents, Linked, Mark;
    MarksLivePrefix(s, a, id, ids);
    WholePrefixExactly(s.tasks.Keys, ids);
  }

  lemma MarkNothing(s: State, row: nat)
    ensures Mark(s, row, []) == (s, Done) && Elements([]) == {}
  {
  }

  lemma ElementsPush(ids: seq<U64>, id: U64)
    ensures Elements(ids + [id]) == Elements(ids) + {id}
  {
  }

  lemma LinkedNothing(a: Abstract, id: U64)
    requires id in a.deps
    ensures Linked(a, id, Elements([])) == a
  {
    assert a.deps[id] + Elements([]) == a.deps[id];
    assert a.deps[id := a.deps[id]] == a.deps;
  }

  lemma LinkedTwice(a: Abstract, id: U64, x: set<U64>, y: set<U64>)
    requires id in a.deps
    ensures id in Linked(a, id, x).deps
    ensures Linked(Linked(a, id, x), id, y) == Linked(a, id, x + y)
  {
    assert a.deps[id] + x + y == a.deps[id] + (x + y);
    OverwriteTwice(a.deps, id, a.deps[id] + x, a.deps[id] + (x + y));
  }

  lemma LinkOne(s: State, a: Abstract, id: U64, dep: U64)
    requires Represents(s, a) && id in s.tasks && dep in s.tasks
    ensures var row, col := s.tasks[id].depPos, s.tasks[dep].depPos;
            && row < |s.edges| && col < |s.edges[row]|
            && Represents(s.(edges := s.edges[row := s.edges[row][col := true]]), Linked(a, id, {dep}))
  {
    Distinct(s, a.order);
    MarkOne(s.edges, a, s.tasks[id].depPos, s.tasks[dep].depPos);
  }

  /** A live task is refused exactly while one of its dependencies is still live. */
  lemma SubmitBlockedExactly(s: State, a: Abstract, id: U64, serverKnown: bool)
    requires Represents(s, a) && id in s.tasks
    ensures Submit(s, id, serverKnown) == if a.deps[id] == {} && serverKnown then Done else Rejected
  {
    var p := s.tasks[id].depPos;
    var row := s.edges[p];
    if true in row {
      var j :| 0 <= j < |row| && row[j];
      assert a.order[j] in a.deps[a.order[p]];
    }
    if b :| b in a.deps[id] {
      var j := s.tasks[b].depPos;
      assert s.edges[p][j] <==> a.order[j] in a.deps[a.order[p]];
      assert row[j] in row;
    }
  }

  // ---------- removal ----------

  function Without(order: seq<U64>, id: U64): seq<U64> {
    if order == [] then []
    else if order[0] == id then order[1..]
    else [order[0]] + Without(order[1..], id)
  }

  lemma {:induction false} WithoutCuts(order: seq<U64>, p: nat)
    requires p < |order| && forall i, j :: 0 <= i < j < |order| ==> order[i] != order[j]
    ensures Without(order, order[p]) == Cut(order, p)
  {
    if p > 0 {
      WithoutCuts(order[1..], p - 1);
      assert order[0] != order[p];
      assert Cut(order, p) == [order[0]] + Cut(order[1..], p - 1);
    }
  }

  function Forgotten(deps: map<U64, set<U64>>, id: U64): map<U64, set<U64>> {
    map x | x in deps && x != id :: deps[x] - {id}
  }

  function Removed(a: Abstract, id: U64): Abstract {
    Abstract(Without(a.order, id), Forgotten(a.deps, id))
  }

  /** Positions above the erased row move down by one. */
  function Renumber(tasks: map<U64, Taskinfo>, p: nat): map<U64, Taskinfo> {
    map x | x in tasks :: if tasks[x].depPos > p then tasks[x].(depPos := tasks[x].depPos - 1) else tasks[x]
  }

  function Renumbered(s: State, id: U64): State {
    var s' := Remove(s, id).0;
    if id in s.tasks then s'.(tasks := Renumber(s'.tasks, s.tasks[id].depPos)) else s'
  }

  predicate Newest(s: State, id: U64) {
    id in s.tasks ==> s.tasks[id].depPos == |s.tasks| - 1
  }

  lemma RemoveIsDefined(s: State, id: U64)
    requires Rows(s, |s.tasks|) && id in s.tasks && s.tasks[id].depPos < |s.tasks|
    ensures Erasable(s.edges, s.tasks[id].depPos) && Remove(s, id).1 == Done
    ensures Rows(Remove(s, id).0, |s.tasks| - 1) && |Remove(s, id).0.tasks| == |s.tasks| - 1
    ensures Remove(s, id).0.tasks == s.tasks - {id}
  {
    assert Erasable(s.edges, s.tasks[id].depPos);
    CutRows(s.edges, s.tasks[id].depPos);
    assert (s.tasks - {id}).Keys == s.tasks.Keys - {id};
  }

  lemma RenumberedTasks(s: State, id: U64)
    requires Rows(s, |s.tasks|) && id in s.tasks && s.tasks[id].depPos < |s.tasks|
    ensures var p, tasks := s.tasks[id].depPos, Renumbered(s, id).tasks;
            && tasks.Keys == s.tasks.Keys - {id} && |tasks| == |s.tasks| - 1
            && forall x :: x in tasks ==> tasks[x].depPos == Unskip(p, s.tasks[x].depPos)
  {
    RemoveIsDefined(s, id);
    hide Remove;
    assert Renumbered(s, id).tasks.Keys == s.tasks.Keys - {id};
  }

  lemma PositionsCut(was: map<U64, Taskinfo>, now: map<U64, Taskinfo>, order: seq<U64>, p: nat)
    requires p < |order| && now.Keys == was.Keys - {order[p]}
    requires forall i :: 0 <= i < |order| ==> order[i] in was && was[order[i]].depPos == i
    requires forall x :: x in was ==> was[x].depPos < |order| && order[was[x].depPos] == x
    requires forall x :: x in now ==> now[x].depPos == Unskip(p, was[x].depPos)
    ensures forall i :: 0 <= i < |order| - 1 ==> Cut(order, p)[i] in now && now[Cut(order, p)[i]].depPos == i
    ensures forall x :: x in now ==> now[x].depPos < |order| - 1 && Cut(order, p)[now[x].depPos] == x
  {
    forall i | 0 <= i < |order| - 1 ensures Cut(order, p)[i] in now && now[Cut(order, p)[i]].depPos == i {
      CutAt(order, p, i);
      assert was[order[Skip(p, i)]].depPos == Skip(p, i);
      assert order[Skip(p, i)] in now.Keys;
    }
    forall x | x in now ensures now[x].depPos < |order| - 1 && Cut(order, p)[now[x].depPos] == x {
      assert x in now.Keys;
      CutAt(order, p, now[x].depPos);
    }
  }

  lemma RenumberedPositions(s: State, order: seq<U64>, id: U64)
    requires Rows(s, |s.tasks|) && Positions(s, order) && id in s.tasks
    ensures Positions(Renumbered(s, id), Cut(order, s.tasks[id].depPos))
  {
    RenumberedTasks(s, id);
    PositionsCut(s.tasks, Renumbered(s, id).tasks, order, s.tasks[id].depPos);
    hide Renumbered, Rows, Unskip;
  }

  function Unskip(p: nat, q: nat): int { if q > p then q - 1 else q }

  function Skip(p: nat, i: nat): nat { if i < p then i else i + 1 }

  lemma CutAt<T>(s: seq<T>, p: nat, i: nat)
    requires p < |s| && i < |s| - 1
    ensures |Cut(s, p)| == |s| - 1 && Cut(s, p)[i] == s[Skip(p, i)]
  {
  }

  lemma CutEntry(edges: seq<seq<bool>>, a: Abstract, p: nat, i: nat, j: nat)
    requires Matrix(edges, a) && p < |a.order| && i < |a.order| - 1 && j < |a.order| - 1
    requires forall k :: 0 <= k < |Cut(edges, p)| ==> p < |Cut(edges, p)[k]|
    requires forall k, l :: 0 <= k < l < |a.order| ==> a.order[k] != a.order[l]
    ensures var cut, order, deps := CutColumn(Cut(edges, p), p), Cut(a.order, p), Forgotten(a.deps, a.order[p]);
            && |cut| == |order| == |a.order| - 1 && order[i] in deps && |cut[i]| == |order|
            && (cut[i][j] <==> order[j] in deps[order[i]])
  {
    var i', j' := Skip(p, i), Skip(p, j);
    CutAt(edges, p, i);
    CutAt(edges[i'], p, j);
    CutAt(a.order, p, i);
    CutAt(a.order, p, j);
    hide Cut;
    assert a.order[i'] != a.order[p] && a.order[j'] != a.order[p];
    assert edges[i'][j'] <==> a.order[j'] in a.deps[a.order[i']];
  }

  lemma MatrixCut(edges: seq<seq<bool>>, a: Abstract, p: nat)
    requires Matrix(edges, a) && p < |a.order| && Erasable(edges, p)
    requires forall i, j :: 0 <= i < j < |a.order| ==> a.order[i] != a.order[j]
    ensures forall k :: 0 <= k < |Cut(edges, p)| ==> p < |Cut(edges, p)[k]|
    ensures Matrix(CutColumn(Cut(edges, p), p), Abstract(Cut(a.order, p), Forgotten(a.deps, a.order[p])))
  {
    CutRows(edges, p);
    assert |Cut(edges, p)| == |Cut(a.order, p)| == |a.order| - 1;
    forall i, j | 0 <= i < |a.order| - 1 && 0 <= j < |a.order| - 1
      ensures var cut, order, deps := CutColumn(Cut(edges, p), p), Cut(a.order, p), Forgotten(a.deps, a.order[p]);
              && order[i] in deps && |cut[i]| == |order| && (cut[i][j] <==> order[j] in deps[order[i]])
    {
      CutEntry(edges, a, p, i, j);
    }
    hide Cut, CutColumn, Forgotten;
    forall i | 0 <= i < |a.order| - 1
      ensures Cut(a.order, p)[i] in Forgotten(a.deps, a.order[p])
      ensures |CutColumn(Cut(edges, p), p)[i]| == |Cut(a.order, p)|
    {
      CutEntry(edges, a, p, i, i);
    }
  }

  lemma ClosedCut(a: Abstract, p: nat)
    requires Closed(a) && p < |a.order|
    requires forall i, j :: 0 <= i < j < |a.order| ==> a.order[i] != a.order[j]
    ensures Closed(Abstract(Cut(a.order, p), Forgotten(a.deps, a.order[p])))
  {
    var order, deps := Cut(a.order, p), Forgotten(a.deps, a.order[p]);
    assert deps.Keys == a.deps.Keys - {a.order[p]};
    forall x | x in deps ensures x in order {
      var i :| 0 <= i < |a.order| && a.order[i] == x;
      assert i != p;
      assert order[if i < p then i else i - 1] == x;
    }
    forall x | x in order ensures x in deps {
      var i :| 0 <= i < |order| && order[i] == x;
      assert order[i] == a.order[if i < p then i else i + 1];
    }
  }

  /** With renumbering, removal forgets the task and nothing else. */
  lemma RenumberedRefines(s: State, a: Abstract, id: U64)
    requires Represents(s, a) && id in s.tasks
    ensures Represents(Renumbered(s, id), Removed(a, id))
    ensures |Renumbered(s, id).tasks| == |s.tasks| - 1
  {
    var p := s.tasks[id].depPos;
    Distinct(s, a.order);
    RemoveIsDefined(s, id);
    RenumberedPositions(s, a.order, id);
    WithoutCuts(a.order, p);
    ClosedCut(a, p);
    MatrixCut(s.edges, a, p);
    hide Matrix, Closed, Without, Forgotten, Cut, CutColumn;
  }

  lemma NewestNeedsNoRenumbering(s: State, order: seq<U64>, id: U64)
    requires Rows(s, |s.tasks|) && Positions(s, order) && Newest(s, id)
    ensures Remove(s, id).0 == Renumbered(s, id)
  {
    if id in s.tasks {
      RemoveIsDefined(s, id);
      hide Remove;
      assert Renumber(s.tasks - {id}, s.tasks[id].depPos) == s.tasks - {id};
    }
  }

  /** The removal as written keeps the matrix meaningful if and only if the row it erases is the
      newest one; after any other removal the state stands for no depends-on relation at all. */
  lemma RemoveExactly(s: State, a: Abstract, id: U64)
    requires Represents(s, a) && id in s.tasks
    ensures Newest(s, id) ==> Represents(Remove(s, id).0, Removed(a, id))
    ensures !Newest(s, id) ==> forall b :: !Represents(Remove(s, id).0, b)
  {
    if Newest(s, id) {
      NewestNeedsNoRenumbering(s, a.order, id);
      RenumberedRefines(s, a, id);
    } else {
      RemoveIsDefined(s, id);
      var last := a.order[|s.tasks| - 1];
      assert last in Remove(s, id).0.tasks;
    }
  }

  /** After such a removal some live task can never be submitted: its position is past the end. */
  lemma StalePosition(s: State, order: seq<U64>, id: U64, serverKnown: bool) returns (stuck: U64)
    requires Rows(s, |s.tasks|) && Positions(s, order) && id in s.tasks && !Newest(s, id)
    ensures stuck in Remove(s, id).0.tasks && Submit(Remove(s, id).0, stuck, serverKnown) == Throws
  {
    RemoveIsDefined(s, id);
    stuck := order[|s.tasks| - 1];
  }

  // ---------- runs ----------

  /** A request to the cluster, or the result callback of a finished task. */
  datatype Event = DeployEv(req: DeployRequest, serverKnown: bool) | Trigger(id: U64) | Terminate(id: U64) | Finished(id: U64)

  function Step(s: State, e: Event): State {
    match e
    case DeployEv(req, known) => HandleDeploy(s, req, known).0
    case Trigger(_) => s
    case Terminate(id) => Remove(s, id).0
    case Finished(id) => Remove(s, id).0
  }

  function RenumberedStep(s: State, e: Event): State {
    match e
    case DeployEv(req, known) => HandleDeploy(s, req, known).0
    case Trigger(_) => s
    case Terminate(id) => Renumbered(s, id)
    case Finished(id) => Renumbered(s, id)
  }

  /** When a deploy is answered with success, on the abstract state. */
  predicate Accepted(a: Abstract, req: DeployRequest, known: bool) {
    && req.id !in a.deps && (req.sourceType == "data" || req.sourceType == "endpoint")
    && (req.trigger == CREATE ==> known)
    && (req.trigger == DEPS ==> Elements(req.deps) <= a.deps.Keys + {req.id})
  }

  function AbstractStep(a: Abstract, e: Event): Abstract {
    match e
    case DeployEv(req, known) =>
      if !Accepted(a, req, known) then a
      else if req.trigger == DEPS then Linked(Joined(a, req.id), req.id, Elements(req.deps))
      else Joined(a, req.id)
    case Trigger(_) => a
    case Terminate(id) => if id in a.deps then Removed(a, id) else a
    case Finished(id) => if id in a.deps then Removed(a, id) else a
  }

  function Run(events: seq<Event>): State {
    if events == [] then State([], map[]) else Step(Run(events[..|events| - 1]), events[|events| - 1])
  }

  function RenumberedRun(events: seq<Event>): State {
    if events == [] then State([], map[])
    else RenumberedStep(RenumberedRun(events[..|events| - 1]), events[|events| - 1])
  }

  function AbstractRun(events: seq<Event>): Abstract {
    if events == [] then Abstract([], map[]) else AbstractStep(AbstractRun(events[..|events| - 1]), events[|events| - 1])
  }

  predicate RemovesNewest(s: State, e: Event) {
    match e case Terminate(id) => Newest(s, id) case Finished(id) => Newest(s, id) case _ => true
  }

  /** Only the newest row is ever removed. */
  predicate LastInRun(events: seq<Event>) {
    events != [] ==>
      LastInRun(events[..|events| - 1]) && RemovesNewest(Run(events[..|events| - 1]), events[|events| - 1])
  }

  predicate Fresh(s: State, req: DeployRequest) {
    req.id !in s.tasks && (req.sourceType == "data" || req.sourceType == "endpoint")
  }

  /** A deploy with dependencies is a deploy and then `add_deps`, taken back when one is missing. */
  lemma DepsDeploy(s: State, req: DeployRequest, known: bool)
    requires Square(s) && req.trigger == DEPS && Fresh(s, req)
    ensures var s1 := Deploy(s, req.id, InfoOf(req)).0;
            var (s2, added) := AddDeps(s1, req.id, req.deps);
            HandleDeploy(s, req, known) ==
              if added == Throws then (s2, Crash)
              else if added == Done then (s2, Deployed)
              else (s, DepsBroken)
  {
    var s1 := Deploy(s, req.id, InfoOf(req)).0;
    DeploySquare(s, req.id, InfoOf(req));
    MarkTouchesOneRow(s1, |s.tasks|, req.deps);
    hide Mark, InfoOf, Square, Submit;
    UndoDeploy(s, req.id, InfoOf(req), AddDeps(s1, req.id, req.deps).0);
  }

  lemma DepsDeployRefines(s: State, a: Abstract, req: DeployRequest, known: bool)
    requires Represents(s, a) && req.trigger == DEPS && Fresh(s, req)
    ensures HandleDeploy(s, req, known).1 == if Accepted(a, req, known) then Deployed else DepsBroken
    ensures Accepted(a, req, known) ==>
              Represents(HandleDeploy(s, req, known).0, Linked(Joined(a, req.id), req.id, Elements(req.deps)))
  {
    RepresentsRows(s, a);
    var s1, a1 := Deploy(s, req.id, InfoOf(req)).0, Joined(a, req.id);
    DeployRefines(s, a, req.id, InfoOf(req));
    assert s1.tasks.Keys == s.tasks.Keys + {req.id} && s1.tasks[req.id].depPos == |s.tasks|;
    hide Represents, Mark, InfoOf, HandleDeploy, Linked, Elements, Deploy, Square, Rows;
    MarkRefines(s1, a1, req.id, req.deps);
    DepsDeploy(s, req, known);
  }

  lemma RepresentsRows(s: State, a: Abstract)
    requires Represents(s, a)
    ensures Rows(s, |s.tasks|) && Square(s) && s.tasks.Keys == a.deps.Keys
  {
  }

  lemma PlainDeployRefines(s: State, a: Abstract, req: DeployRequest, known: bool)
    requires Represents(s, a) && req.trigger != DEPS && Fresh(s, req)
    ensures HandleDeploy(s, req, known).1 ==
              if req.trigger != CREATE then Deployed else if known then Triggered else Err
    ensures (req.trigger == CREATE ==> known) ==>
              && HandleDeploy(s, req, known).0 == Deploy(s, req.id, InfoOf(req)).0
              && Represents(HandleDeploy(s, req, known).0, Joined(a, req.id))
  {
    RepresentsRows(s, a);
    DeployRefines(s, a, req.id, InfoOf(req));
    PlainDeploy(s, req, known);
    hide Represents, Joined, InfoOf, Deploy, HandleDeploy, Rows, Square;
  }

  /** Which answer a deploy handled alone gets. */
  lemma DeployReplyExactly(s: State, a: Abstract, req: DeployRequest, known: bool)
    requires Represents(s, a)
    ensures var reply := HandleDeploy(s, req, known).1;
            var legal := req.id !in s.tasks && (req.sourceType == "data" || req.sourceType == "endpoint");
            var linked := forall dep :: dep in req.deps ==> dep in s.tasks || dep == req.id;
            && (reply == Illegal <==> !legal)
            && (reply == Triggered <==> legal && req.trigger == 1 && known)
            && (reply == Err <==> legal && req.trigger == 1 && !known)
            && (reply == DepsBroken <==> legal && req.trigger == 2 && !linked)
            && (reply == Deployed <==> legal && req.trigger != 1 && (req.trigger == 2 ==> linked))
  {
    RepresentsRows(s, a);
    LinkedExactly(s, req.deps, req.id);
    hide Represents, HandleDeploy, Square, Rows, Elements;
    if !Fresh(s, req) {
      NotFreshIsIllegal(s, req, known);
    } else if req.trigger == DEPS {
      DepsDeployRefines(s, a, req, known);
    } else {
      PlainDeployRefines(s, a, req, known);
    }
  }

  lemma NotFreshIsIllegal(s: State, req: DeployRequest, known: bool)
    requires !Fresh(s, req)
    ensures HandleDeploy(s, req, known) == (s, Illegal)
  {
  }

  lemma LinkedExactly(s: State, deps: seq<U64>, id: U64)
    ensures Elements(deps) <= s.tasks.Keys + {id} <==> forall dep :: dep in deps ==> dep in s.tasks || dep == id
  {
    if Elements(deps) <= s.tasks.Keys + {id} {
      forall dep | dep in deps ensures dep in s.tasks || dep == id {
        assert dep in Elements(deps);
      }
    }
  }

  /** What an accepted deploy stores: the input as data or as a path, an output path only without
      virtual storage, the policies, and the period's fields or zeros.  No other task changes. */
  lemma DeployStores(s: State, req: DeployRequest, known: bool)
    requires Square(s) && HandleDeploy(s, req, known).1 in {Triggered, Deployed}
    ensures var s' := HandleDeploy(s, req, known).0;
            && s'.tasks.Keys == s.tasks.Keys + {req.id} && req.id !in s.tasks
            && (forall id :: id in s.tasks ==> s'.tasks[id] == s.tasks[id])
            && var info := s'.tasks[req.id];
            && info.depPos == |s.tasks|
            && (req.sourceType == "data" ==> info.inputData == req.input && info.inputPath == "")
            && (req.sourceType == "endpoint" ==> info.inputPath == req.input && info.inputData == "")
            && (req.virtStorage ==> info.outputPath == "") && (!req.virtStorage ==> info.outputPath == req.output)
            && info.directoryPolicy == req.directoryPolicy && info.emptyPolicy == req.emptyPolicy
            && (req.period == None ==>
                  info.period == 0 && info.resultPolicy == 0 && info.triggerPolicy == 0 && info.backupId == [])
            && (req.period.Some? ==>
                  && info.period == req.period.value.interval && info.resultPolicy == req.period.value.resultPolicy
                  && info.triggerPolicy == req.period.value.triggerPolicy && info.backupId == req.period.value.backupId)
  {
    assert Fresh(s, req);
    var s1 := Deploy(s, req.id, InfoOf(req)).0;
    hide Square, Mark;
    if req.trigger == DEPS {
      DepsDeploy(s, req, known);
      MarkTouchesOneRow(s1, |s.tasks|, req.deps);
    } else {
      PlainDeploy(s, req, known);
    }
  }

  lemma HandleDeployRefines(s: State, a: Abstract, req: DeployRequest, known: bool)
    requires Represents(s, a)
    ensures HandleDeploy(s, req, known).1 in {Triggered, Deployed} <==> Accepted(a, req, known)
    ensures HandleDeploy(s, req, known).1 != Crash
    ensures Represents(HandleDeploy(s, req, known).0, AbstractStep(a, DeployEv(req, known)))
  {
    RepresentsRows(s, a);
    if Fresh(s, req) {
      hide Represents, Linked, Joined, HandleDeploy, Elements, Square, Rows;
      if req.trigger == DEPS {
        DepsDeployRefines(s, a, req, known);
      } else {
        PlainDeployRefines(s, a, req, known);
      }
      if !Accepted(a, req, known) { FailedDeployIsNoOp(s, req, known); }
    }
  }

  lemma StepRefines(s: State, a: Abstract, e: Event)
    requires Represents(s, a)
    ensures Represents(RenumberedStep(s, e), AbstractStep(a, e))
  {
    RepresentsRows(s, a);
    hide Represents, HandleDeploy, Accepted, Renumbered, Removed, Joined, Linked, Elements, Square, Rows;
    match e {
      case DeployEv(req, known) => HandleDeployRefines(s, a, req, known);
      case Trigger(_) =>
      case Terminate(id) => RenumberedOrKept(s, a, id);
      case Finished(id) => RenumberedOrKept(s, a, id);
    }
  }

  lemma RenumberedOrKept(s: State, a: Abstract, id: U64)
    requires Represents(s, a)
    ensures Represents(Renumbered(s, id), if id in a.deps then Removed(a, id) else a)
  {
    RepresentsRows(s, a);
    hide Represents, Removed;
    if id in s.tasks { RenumberedRefines(s, a, id); }
  }

  /** Over every run with renumbered removal the matrix is exactly the depends-on relation. */
  lemma {:induction false} RunRefines(events: seq<Event>)
    ensures Represents(RenumberedRun(events), AbstractRun(events))
  {
    if events != [] {
      hide Represents, AbstractStep, RenumberedStep;
      RunRefines(events[..|events| - 1]);
      StepRefines(RenumberedRun(events[..|events| - 1]), AbstractRun(events[..|events| - 1]), events[|events| - 1]);
    }
  }

  /** One step of the code as written keeps the matrix meaningful exactly when it does not remove an
      older row. */
  lemma StepExactly(s: State, a: Abstract, e: Event)
    requires Represents(s, a)
    ensures Represents(Step(s, e), AbstractStep(a, e)) <==> RemovesNewest(s, e)
    ensures RemovesNewest(s, e) ==> Step(s, e) == RenumberedStep(s, e)
  {
    StepRefines(s, a, e);
    RepresentsRows(s, a);
    match e {
      case Terminate(id) => RemovalExactly(s, a, id);
      case Finished(id) => RemovalExactly(s, a, id);
      case DeployEv(_, _) =>
      case Trigger(_) =>
    }
  }

  lemma RemovalExactly(s: State, a: Abstract, id: U64)
    requires Represents(s, a)
    ensures Represents(Remove(s, id).0, if id in a.deps then Removed(a, id) else a) <==> Newest(s, id)
    ensures Newest(s, id) ==> Remove(s, id).0 == Renumbered(s, id)
  {
    RepresentsRows(s, a);
    if id in s.tasks {
      RemoveExactly(s, a, id);
      if Newest(s, id) { NewestNeedsNoRenumbering(s, a.order, id); }
    }
  }

  /** The code as written represents the relation all along a run if and only if the run only ever
      removes the newest row. */
  lemma {:induction false} LastInRunExactly(events: seq<Event>)
    ensures LastInRun(events) <==>
            forall n :: 0 <= n <= |events| ==> Represents(Run(events[..n]), AbstractRun(events[..n]))
    ensures LastInRun(events) ==> Run(events) == RenumberedRun(events)
  {
    hide Represents, Step, RenumberedStep, AbstractStep, RemovesNewest;
    if events == [] {
      assert events[..0] == [];
      RunRefines([]);
    } else {
      var m := |events| - 1;
      var front := events[..m];
      LastInRunExactly(front);
      assert events[..m + 1] == events && front[..m] == front;
      if Represents(Run(front), AbstractRun(front)) {
        StepExactly(Run(front), AbstractRun(front), events[m]);
      }
      if forall n :: 0 <= n <= m ==> Represents(Run(front[..n]), AbstractRun(front[..n])) {
        forall n | 0 <= n <= m ensures Represents(Run(events[..n]), AbstractRun(events[..n])) {
          assert front[..n] == events[..n];
        }
      } else {
        var n :| 0 <= n <= m && !Represents(Run(front[..n]), AbstractRun(front[..n]));
        assert front[..n] == events[..n];
      }
    }
  }

  // ---------- deadlock freedom ----------

  /** Strictly lower triangular: every dependency stands in an earlier row. */
  ghost predicate Lower(edges: seq<seq<bool>>) {
    forall i, j :: 0 <= i < |edges| && 0 <= j < |edges[i]| && edges[i][j] ==> j < i
  }

  /** Deploying it would not make a task depend on itself. */
  predicate NamesItself(e: Event) {
    e.DeployEv? && e.req.trigger == DEPS && e.req.id in e.req.deps
  }

  lemma {:induction false} MarkLower(s: State, row: nat, deps: seq<U64>, id: U64)
    requires Lower(s.edges) && row + 1 == |s.edges| && id !in deps
    requires forall x :: x in s.tasks && x != id ==> s.tasks[x].depPos < row
    ensures Lower(Mark(s, row, deps).0.edges)
  {
    if deps != [] {
      MarkLower(s, row, deps[..|deps| - 1], id);
      MarkTouchesOneRow(s, row, deps[..|deps| - 1]);
      assert deps[|deps| - 1] in deps;
    }
  }

  lemma LowerDeploy(s: State, a: Abstract, req: DeployRequest, known: bool)
    requires Represents(s, a) && Lower(s.edges) && !NamesItself(DeployEv(req, known))
    ensures Lower(HandleDeploy(s, req, known).0.edges)
  {
    RepresentsRows(s, a);
    HandleDeployRefines(s, a, req, known);
    if Accepted(a, req, known) {
      var s1 := Deploy(s, req.id, InfoOf(req)).0;
      DeployLower(s, a, req.id, InfoOf(req));
      hide Represents, Linked, Joined, InfoOf, Elements, Lower, HandleDeploy, Deploy, Mark, Square, Rows;
      if req.trigger == DEPS {
        MarkLower(s1, |s.tasks|, req.deps, req.id);
        DepsDeploy(s, req, known);
      } else {
        PlainDeployRefines(s, a, req, known);
      }
    } else {
      FailedDeployIsNoOp(s, req, known);
    }
  }

  lemma DeployLower(s: State, a: Abstract, id: U64, info: Taskinfo)
    requires Represents(s, a) && Lower(s.edges) && id !in s.tasks
    ensures var s1 := Deploy(s, id, info).0;
            && Lower(s1.edges) && |s1.edges| == |s.tasks| + 1 && s1.tasks[id].depPos == |s.tasks|
            && forall x :: x in s1.tasks && x != id ==> s1.tasks[x].depPos < |s.tasks|
  {
  }

  lemma LowerCut(s: State, id: U64)
    requires Rows(s, |s.tasks|) && id in s.tasks && s.tasks[id].depPos < |s.tasks| && Lower(s.edges)
    ensures Lower(Remove(s, id).0.edges)
  {
    RemoveIsDefined(s, id);
    CutRows(s.edges, s.tasks[id].depPos);
    var p, cut := s.tasks[id].depPos, Remove(s, id).0.edges;
    forall i, j | 0 <= i < |cut| && 0 <= j < |cut[i]| && cut[i][j] ensures j < i {
      var i', j' := if i < p then i else i + 1, if j < p then j else j + 1;
      assert cut[i] == Cut(s.edges[i'], p) && cut[i][j] == s.edges[i'][j'];
    }
  }

  lemma LowerStep(s: State, a: Abstract, e: Event)
    requires Represents(s, a) && Lower(s.edges) && !NamesItself(e)
    ensures Lower(RenumberedStep(s, e).edges)
  {
    match e {
      case DeployEv(req, known) => LowerDeploy(s, a, req, known);
      case Trigger(_) =>
      case Terminate(id) => if id in s.tasks { LowerCut(s, id); }
      case Finished(id) => if id in s.tasks { LowerCut(s, id); }
    }
  }

  /** In every run where no task names itself the matrix is strictly lower triangular in
      deployment order. */
  lemma {:induction false} RunsAreLower(events: seq<Event>)
    requires forall e :: e in events ==> !NamesItself(e)
    ensures Represents(RenumberedRun(events), AbstractRun(events)) && Lower(RenumberedRun(events).edges)
  {
    RunRefines(events);
    if events != [] {
      hide Represents, RenumberedStep, AbstractStep, Lower;
      var front := events[..|events| - 1];
      assert forall e :: e in front ==> e in events;
      RunsAreLower(front);
      LowerStep(RenumberedRun(front), AbstractRun(front), events[|events| - 1]);
    } else {
      assert RenumberedRun(events).edges == [];
    }
  }

  lemma EdgeGoesDown(s: State, a: Abstract, x: U64, y: U64)
    requires Represents(s, a) && Lower(s.edges) && x in a.deps && y in a.deps[x]
    ensures y in s.tasks && x in s.tasks && s.tasks[y].depPos < s.tasks[x].depPos
  {
    var i, j := s.tasks[x].depPos, s.tasks[y].depPos;
    assert s.edges[i][j] <==> a.order[j] in a.deps[a.order[i]];
  }

  /** A chain of dependencies never comes back to its first task: the graph is acyclic. */
  lemma {:induction false} Acyclic(s: State, a: Abstract, chain: seq<U64>)
    requires Represents(s, a) && Lower(s.edges) && |chain| >= 2
    requires forall i :: 0 <= i < |chain| ==> chain[i] in a.deps
    requires forall i :: 0 <= i < |chain| - 1 ==> chain[i + 1] in a.deps[chain[i]]
    ensures chain[0] in s.tasks && chain[|chain| - 1] in s.tasks
    ensures s.tasks[chain[|chain| - 1]].depPos < s.tasks[chain[0]].depPos && chain[0] != chain[|chain| - 1]
  {
    assert chain[0 + 1] in a.deps[chain[0]];
    EdgeGoesDown(s, a, chain[0], chain[1]);
    if |chain| > 2 {
      forall i | 0 <= i < |chain[1..]| - 1 ensures chain[1..][i + 1] in a.deps[chain[1..][i]] {
        assert chain[(i + 1) + 1] in a.deps[chain[i + 1]];
      }
      Acyclic(s, a, chain[1..]);
    }
  }

  /** A non-empty state has a task that can be submitted: the oldest one. */
  lemma OldestIsFree(s: State, a: Abstract)
    requires Represents(s, a) && Lower(s.edges) && s.tasks != map[]
    ensures a.order != [] && a.order[0] in s.tasks && Submit(s, a.order[0], true) == Done
  {
    assert s.tasks.Keys != {} && |s.tasks| > 0;
    var id := a.order[0];
    if b :| b in a.deps[id] {
      EdgeGoesDown(s, a, id, b);
    }
    SubmitBlockedExactly(s, a, id, true);
  }

  /** Each task of `order` can be submitted when the ones before it are done, and none is left. */
  ghost predicate Drains(s: State, order: seq<U64>)
    decreases |order|
  {
    if order == [] then s.tasks == map[]
    else Submit(s, order[0], true) == Done && Drains(Renumbered(s, order[0]), order[1..])
  }

  /** Submitting and finishing the tasks in deployment order empties the cluster. */
  lemma {:induction false} DeploymentOrderDrains(s: State, a: Abstract)
    requires Represents(s, a) && Lower(s.edges)
    ensures Drains(s, a.order)
    decreases |a.order|
  {
    if a.order != [] {
      var id := a.order[0];
      OldestIsFree(s, a);
      RenumberedRefines(s, a, id);
      LowerStep(s, a, Finished(id));
      hide Represents, Renumbered, Lower;
      assert Without(a.order, id) == a.order[1..];
      DeploymentOrderDrains(Renumbered(s, id), Removed(a, id));
    }
  }

  /** A task that names itself is refused at every submission. */
  lemma SelfDependencyBlocks(s: State, a: Abstract, req: DeployRequest, known: bool)
    requires Represents(s, a) && Accepted(a, req, known) && NamesItself(DeployEv(req, known))
    ensures Submit(HandleDeploy(s, req, known).0, req.id, true) == Rejected
  {
    RepresentsRows(s, a);
    DepsDeployRefines(s, a, req, known);
    var a' := Linked(Joined(a, req.id), req.id, Elements(req.deps));
    var s' := HandleDeploy(s, req, known).0;
    RepresentsRows(s', a');
    assert req.id in a'.deps[req.id];
    SubmitBlockedExactly(s', a', req.id, true);
  }

  /** The smallest failure of the removal as written: a task, and one that waits for it.  When the
      first is done, the second waits for nothing and still cannot be submitted. */
  lemma TwoTaskExample(info: Taskinfo)
    ensures var s := State([[false, false], [true, false]], map[1 := info.(depPos := 0), 2 := info.(depPos := 1)]);
            && Represents(s, Abstract([1, 2], map[1 := {}, 2 := {1}]))
            && Remove(s, 1).0.edges == [[false]] && 2 in Remove(s, 1).0.tasks
            && Submit(Remove(s, 1).0, 2, true) == Throws
  {
    var s := State([[false, false], [true, false]], map[1 := info.(depPos := 0), 2 := info.(depPos := 1)]);
    assert s.tasks.Keys == {1, 2};
    RemoveIsDefined(s, 1);
    var cut := Cut(s.edges, 0);
    assert cut == [[true, false]];
    assert CutColumn(cut, 0) == [[false]] by { assert Cut([true, false], 0) == [false]; }
  }
}
