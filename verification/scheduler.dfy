/**
 The file system service scheduler as it is written (`storage/fs/scheduler/Scheduler.cc`): an id map and
 a scope multimap over the same services, both updated in place.  `Value` is the state of `Lives`.

 Results of `init` and of `rand` are arguments.
 */
module Scheduler {
  import opened Prelude
  import opened Lives

  class Service {
    var status: bool
    var scope: string
    const hasInit: bool
    const hasDestroy: bool
    ghost const serial: nat  // how many were registered before it
    ghost var enabled: nat
    ghost var destroyed: nat

    constructor (hasInit: bool, hasDestroy: bool, scope: string, ghost serial: nat)
      ensures Value() == Life(hasInit, hasDestroy, scope, false, 0, 0) && this.serial == serial
    {
      status, this.scope := false, scope;
      this.hasInit, this.hasDestroy, this.serial := hasInit, hasDestroy, serial;
      enabled, destroyed := 0, 0;
    }

    ghost function Value(): Life
      reads `status, `scope, `enabled, `destroyed
    {
      Life(hasInit, hasDestroy, scope, status, enabled, destroyed)
    }

    method CallDestroy()
      modifies `destroyed
      ensures Value() == Destroyed(old(Value()))
    {
      if hasDestroy { destroyed := destroyed + 1; }
    }

    /** The body of the loop of `enable_service`; `result` is what `init` returns if it is called. */
    method Enable(result: int)
      modifies `status, `enabled, `destroyed
      ensures Value() == Enabled(old(Value()), result)
    {
      if !status {
        status := true;
        enabled := enabled + 1;
        if hasInit && result == -1 {
          CallDestroy();
          status := false;
        }
      }
    }

    /** The body of the loop of `disable_service`. */
    method Disable()
      modifies `status, `destroyed
      ensures Value() == Disabled(old(Value()))
    {
      if status {
        CallDestroy();
        status := false;
      }
    }
  }

  type Entry = (string, Service)

  /** One multimap entry per registered service, under its current scope, and no other. */
  ghost predicate Mirrors(services: map<int, Service>, entries: multiset<Entry>)
    reads services.Values`scope
  {
    && (forall e :: e in entries ==> e.1 in services.Values && e.0 == e.1.scope)
    && (forall id :: id in services ==> entries[(services[id].scope, services[id])] == 1)
  }

  predicate Injective(services: map<int, Service>)
  {
    forall i, j :: i in services && j in services && services[i] == services[j] ==> i == j
  }

  /** A new service under a new id. */
  lemma Added(services: map<int, Service>, entries: multiset<Entry>, id: int, s: Service)
    requires Injective(services) && Mirrors(services, entries) && id !in services && s !in services.Values
    ensures Injective(services[id := s]) && Mirrors(services[id := s], entries + multiset{(s.scope, s)})
    ensures services[id := s].Values == services.Values + {s}
  {
    ValuesAfter(services, id, s);
    assert (s.scope, s) !in entries;
  }

  /** Without one service and its entry. */
  lemma Removed(services: map<int, Service>, entries: multiset<Entry>, id: int)
    requires Injective(services) && Mirrors(services, entries) && id in services
    ensures Injective(services - {id})
    ensures Mirrors(services - {id}, entries - multiset{(services[id].scope, services[id])})
    ensures (services - {id}).Values == services.Values - {services[id]}
  {
    assert forall j :: j in services && services[j] == services[id] ==> j == id;
    ValuesAfter(services, id, services[id]);
  }

  /** Every service ever registered stands at its serial number, those in the map among them. */
  ghost predicate Numbered(services: map<int, Service>, log: seq<Service>) {
    && (forall k :: 0 <= k < |log| ==> log[k].serial == k)
    && (forall id :: id in services ==> services[id].serial < |log| && log[services[id].serial] == services[id])
  }

  ghost function Ids(services: map<int, Service>): map<int, nat> {
    map id | id in services :: services[id].serial
  }

  ghost function LivesOf(log: seq<Service>): (r: seq<Life>)
    reads log
    ensures |r| == |log|
  {
    seq(|log|, k requires 0 <= k < |log| reads log => log[k].Value())
  }

  /** A service of the range asked for. */
  predicate InRange(s: Service, range: Range, scope: string)
    reads s`scope
  {
    range == All || s.scope == scope
  }

  class Scheduler {
    var services: map<int, Service>
    var serviceScope: multiset<Entry>
    var policy: Policy
    var range: Range
    var selectScope: string
    var selectId: int
    var current: Service?
    ghost var log: seq<Service>  // every service ever registered

    constructor ()
      ensures Valid() && Value() == EMPTY && log == [] && current == null
    {
      services, serviceScope, log := map[], multiset{}, [];
      policy, range, selectScope, selectId, current := LoadBalance, All, "", -1, null;
    }

    ghost predicate Valid()
      reads this`services, this`serviceScope, this`log, services.Values`scope
    {
      Injective(services) && Mirrors(services, serviceScope) && Numbered(services, log)
    }

    ghost function Value(): State
      reads this`services, this`log, log
    {
      State(Ids(services), LivesOf(log))
    }

    /** `register_service`. */
    method Register(id: int, hasInit: bool, hasDestroy: bool, scope: string) returns (rc: int)
      requires Valid()
      modifies this`services, this`serviceScope, this`log
      ensures Valid()
      ensures rc == if id <= 0 || id in old(services) then -1 else 0
      ensures Value() == Apply(old(Value()), RegisterCmd(id, hasInit, hasDestroy, scope))
      ensures rc == -1 ==> log == old(log)
      ensures rc == 0 ==> |log| == |old(log)| + 1 && log[..|old(log)|] == old(log) && fresh(log[|old(log)|])
    {
      if id <= 0 || id in services { return -1; }
      hide Mirrors, Injective;
      var service := new Service(hasInit, hasDestroy, scope, |log|);
      Added(services, serviceScope, id, service);
      Place(id, service);
      rc := 0;
    }

    /** Put a new service into both containers. */
    method Place(id: int, service: Service)
      requires Numbered(services, log) && id !in services && service !in log && service.serial == |log|
      requires Injective(services[id := service]) && Mirrors(services[id := service], serviceScope + multiset{(service.scope, service)})
      modifies this`services, this`serviceScope, this`log
      ensures Valid() && log == old(log) + [service]
      ensures Value() == State(old(Value()).ids[id := |old(log)|], old(Value()).lives + [service.Value()])
    {
      hide Mirrors, Injective;
      services := services[id := service];
      serviceScope := serviceScope + multiset{(service.scope, service)};
      log := log + [service];
      assert Ids(services) == Ids(old(services))[id := |old(log)|];
      assert LivesOf(log) == LivesOf(old(log)) + [service.Value()];
    }

    method EnableOne(a: Attempt)
      requires Valid()
      modifies log
      ensures Valid() && Value() == Lives.EnableOne(old(Value()), a)
    {
      if a.id in services {
        hide Mirrors, Injective;
        var service := services[a.id];
        service.Enable(a.result);
        assert forall k :: 0 <= k < |log| && k != service.serial ==> log[k] != service;
        assert LivesOf(log) == old(LivesOf(log))[service.serial := service.Value()];
      }
    }

    method DisableOne(id: int)
      requires Valid()
      modifies log
      ensures Valid() && Value() == Lives.DisableOne(old(Value()), id)
    {
      if id in services {
        hide Mirrors, Injective;
        var service := services[id];
        service.Disable();
        assert forall k :: 0 <= k < |log| && k != service.serial ==> log[k] != service;
        assert LivesOf(log) == old(LivesOf(log))[service.serial := service.Value()];
      }
    }

    /** `enable_service`. */
    method Enable(attempts: seq<Attempt>)
      requires Valid()
      modifies log
      ensures Valid() && Value() == EnableAll(old(Value()), attempts)
    {
      hide Valid, Value;
      for k := 0 to |attempts|
        invariant Valid() && Value() == EnableAll(old(Value()), attempts[..k])
      {
        assert attempts[..k + 1][..k] == attempts[..k];
        EnableOne(attempts[k]);
      }
      assert attempts[..|attempts|] == attempts;
    }

    /** `disable_service`. */
    method Disable(ids: seq<int>)
      requires Valid()
      modifies log
      ensures Valid() && Value() == DisableAll(old(Value()), ids)
    {
      hide Valid, Value;
      for k := 0 to |ids|
        invariant Valid() && Value() == DisableAll(old(Value()), ids[..k])
      {
        assert ids[..k + 1][..k] == ids[..k];
        DisableOne(ids[k]);
      }
      assert ids[..|ids|] == ids;
    }

    /** Take one service out of both containers. */
    method Erase(id: int)
      requires Valid() && id in services
      modifies this`services, this`serviceScope
      ensures Valid() && Value() == Forget(old(Value()), [id])
    {
      hide Mirrors, Injective;
      Removed(services, serviceScope, id);
      serviceScope := serviceScope - multiset{(services[id].scope, services[id])};
      services := services - {id};
      assert Ids(services) == Forget(old(Value()), [id]).ids;
    }

    /** `unload_service`. */
    method Unload(ids: seq<int>)
      requires Valid()
      modifies this`services, this`serviceScope, log
      ensures Valid() && Value() == Apply(old(Value()), UnloadCmd(ids))
    {
      Disable(ids);
      ghost var disabled := Value();
      assert Forget(disabled, []) == disabled;
      hide Valid;
      for k := 0 to |ids|
        invariant Valid() && log == old(log) && Value() == Forget(disabled, ids[..k])
      {
        ForgetNext(disabled, ids, k);
        assert ids[k] in services <==> ids[k] in Value().ids;
        hide Value, Forget;
        if ids[k] in services {
          Erase(ids[k]);
        }
      }
      assert ids[..|ids|] == ids;
    }

    /** Replace the entry of one service. */
    method Rekey(id: int, service: Service, scope: string)
      requires id in services && services[id] == service && Injective(services) && Mirrors(services, serviceScope)
      modifies this`serviceScope, service`scope
      ensures Mirrors(services, serviceScope)
      ensures service.scope == scope
    {
      hide Mirrors;
      Removed(services, serviceScope, id);
      var others := serviceScope - multiset{(service.scope, service)};
      service.scope := scope;
      Added(services - {id}, others, id, service);
      assert (services - {id})[id := service] == services;
      serviceScope := others + multiset{(scope, service)};
    }

    /** `change_scope`. */
    method ChangeScope(id: int, scope: string)
      requires Valid()
      modifies this`serviceScope, log
      ensures Valid() && Value() == Rescoped(old(Value()), id, scope)
    {
      if id !in services { return; }
      var service := services[id];
      assert serviceScope[(service.scope, service)] == 1;
      if (service.scope, service) in serviceScope {
        hide Mirrors, Injective;
        Rekey(id, service, scope);
        assert forall k :: 0 <= k < |log| && k != service.serial ==> log[k] != service;
        assert LivesOf(log) == old(LivesOf(log))[service.serial := service.Value()];
      }
    }

    /** `Balance_Select_Service` over the entries in range; `rnd` is the random number. */
    method BalanceSelect(rnd: nat) returns (chosen: Service?)
      requires Valid()
      ensures chosen != null ==> chosen in services.Values && InRange(chosen, range, selectScope) && chosen.status
      ensures chosen == null ==>
                forall id :: id in services && InRange(services[id], range, selectScope) ==> !services[id].status
    {
      var entries := serviceScope;
      var candidates: seq<Service> := [];
      while entries != multiset{}
        invariant entries <= serviceScope
        invariant forall s :: s in candidates ==> s in services.Values && InRange(s, range, selectScope) && s.status
        invariant forall e :: e in serviceScope && InRange(e.1, range, selectScope) && e.1.status ==>
                    e in entries || e.1 in candidates
        decreases |entries|
      {
        var e :| e in entries;
        entries := entries - multiset{e};
        if range == All || e.0 == selectScope {
          if e.1.status {
            candidates := candidates + [e.1];
          }
        }
      }
      if candidates == [] { return null; }
      chosen := candidates[rnd % |candidates|];
      assert chosen in candidates;
    }

    /** What a choice may be: null or an enabled service; by id exactly that service if it is enabled;
        otherwise one of the range asked for, and null only when none there is enabled. */
    ghost predicate Chosen(chosen: Service?)
      reads this`services, this`policy, this`selectId, this`range, this`selectScope
      reads services.Values`status, services.Values`scope
    {
      && (chosen != null ==> chosen in services.Values && chosen.status)
      && (policy == Single ==>
            chosen == if selectId in services && services[selectId].status then services[selectId] else null)
      && (policy == LoadBalance && chosen != null ==> InRange(chosen, range, selectScope))
      && (policy == LoadBalance && chosen == null ==>
            forall id :: id in services && InRange(services[id], range, selectScope) ==> !services[id].status)
    }

    /** `service_choose`. */
    method ServiceChoose(rnd: nat) returns (chosen: Service?)
      requires Valid()
      ensures Chosen(chosen)
    {
      if policy == Single {
        if selectId !in services || !services[selectId].status { return null; }
        chosen := services[selectId];
      } else {
        chosen := BalanceSelect(rnd);
      }
    }

    method SetStrategy(policy: Policy, selectId: int, range: Range, scope: string)
      modifies this`policy, this`selectId, this`range, this`selectScope
      ensures this.policy == policy && this.range == range
      ensures this.selectId == (if policy == LoadBalance then -1 else selectId)
      ensures selectScope == (if range == All then "" else scope)
    {
      this.policy := policy;
      this.selectId := selectId;
      if policy == LoadBalance { this.selectId := -1; }
      this.range := range;
      selectScope := scope;
      if range == All { selectScope := ""; }
    }

    /** `strategy_choose`. */
    method StrategyChoose(policy: Policy, selectId: int, range: Range, scope: string, rnd: nat)
      requires Valid()
      modifies this`policy, this`selectId, this`range, this`selectScope, this`current
      ensures Valid() && Value() == old(Value()) && Chosen(current)
      ensures this.policy == policy && this.range == range
      ensures this.selectId == (if policy == LoadBalance then -1 else selectId)
      ensures selectScope == (if range == All then "" else scope)
    {
      hide Valid, Value, Chosen;
      SetStrategy(policy, selectId, range, scope);
      current := ServiceChoose(rnd);
    }

    /** One operation: the new state, and for a choice what was chosen. */
    method Step(c: Command)
      requires Valid()
      modifies this, log
      ensures Valid() && Value() == Apply(old(Value()), c)
      ensures c.ChooseCmd? ==>
                && Chosen(current) && policy == c.policy && range == c.range
                && selectId == (if c.policy == LoadBalance then -1 else c.selectId)
                && selectScope == (if c.range == All then "" else c.scope)
      ensures |old(log)| <= |log| && log[..|old(log)|] == old(log)
      ensures forall k :: |old(log)| <= k < |log| ==> fresh(log[k])
    {
      hide Valid, Value, Chosen;
      match c {
        case RegisterCmd(id, hasInit, hasDestroy, scope) =>
          var rc := Register(id, hasInit, hasDestroy, scope);
        case EnableCmd(attempts) => Enable(attempts);
        case DisableCmd(dropped) => Disable(dropped);
        case UnloadCmd(dropped) => Unload(dropped);
        case ScopeCmd(id, scope) => ChangeScope(id, scope);
        case ChooseCmd(policy, selectId, range, scope, rnd) => StrategyChoose(policy, selectId, range, scope, rnd);
      }
    }

    /** The body of the loop of the destructor. */
    method DestroyOne(id: int)
      requires Numbered(services, log) && id in services
      modifies log
      ensures var p := services[id].serial;
              var l := old(LivesOf(log))[p];
              LivesOf(log) == old(LivesOf(log))[p := if l.status then Destroyed(l) else l]
    {
      var service := services[id];
      if service.status { service.CallDestroy(); }
      assert forall k :: 0 <= k < |log| && k != service.serial ==> log[k] != service;
      ghost var l := old(LivesOf(log))[service.serial];
      assert LivesOf(log) == old(LivesOf(log))[service.serial := if l.status then Destroyed(l) else l];
    }

    /** The loop of the destructor. */
    method DestroyAll()
      requires Numbered(services, log) && Injective(services)
      modifies log
      ensures LivesOf(log) == PartEnded(old(LivesOf(log)), Ids(services).Values)
    {
      hide PartEnded, LivesOf, Numbered, Places, Ids;
      var left := services.Keys;
      ghost var was := LivesOf(log);
      PartEndedNone(was);
      NoPlaces(services);
      assert services.Keys - left == {};
      while left != {}
        invariant left <= services.Keys && LivesOf(log) == PartEnded(was, Places(services, services.Keys - left))
        decreases left
      {
        ghost var someId := Pick(left);
        var id: int :| id in left;
        PlacesNext(services, log, services.Keys - left, id);
        PartEndedStep(was, Places(services, services.Keys - left), services[id].serial);
        DestroyOne(id);
        assert services.Keys - (left - {id}) == (services.Keys - left) + {id};
        left := left - {id};
      }
      assert services.Keys - left == services.Keys;
      AllPlaces(services);
    }

    /** The destructor: whatever is still enabled is destroyed. */
    method Destroy()
      requires Valid()
      modifies this`services, this`serviceScope, log
      ensures Valid() && services == map[] && serviceScope == multiset{}
      ensures Value() == Ended(old(Value()))
    {
      hide Mirrors, Injective, PartEnded, Ended, Numbered, Ids, LivesOf;
      serviceScope := multiset{};
      PartEndedAll(old(Value()));
      DestroyAll();
      NothingLeft(services, log);
      services := map[];
    }
  }

  lemma NothingLeft(services: map<int, Service>, log: seq<Service>)
    requires Numbered(services, log)
    ensures Mirrors(map[], multiset{}) && Injective(map[]) && Numbered(map[], log) && Ids(map[]) == map[]
  {
  }

  lemma NoPlaces(services: map<int, Service>)
    ensures Places(services, {}) == {}
  {
  }

  /** Every service has its own place. */
  lemma PlacesNext(services: map<int, Service>, log: seq<Service>, done: set<int>, id: int)
    requires Numbered(services, log) && Injective(services) && id in services && id !in done
    ensures services[id].serial < |log| && services[id].serial !in Places(services, done)
    ensures Places(services, done + {id}) == Places(services, done) + {services[id].serial}
  {
    assert id in done + {id};
  }

  lemma AllPlaces(services: map<int, Service>)
    ensures Places(services, services.Keys) == Ids(services).Values
  {
    forall k | k in Ids(services).Values ensures k in Places(services, services.Keys) {
      var id := SomeKey(Ids(services), k);
    }
    forall k | k in Places(services, services.Keys) ensures k in Ids(services).Values {
      var id :| id in services && services[id].serial == k;
      assert Ids(services)[id] == k;
    }
  }

  /** The lives when the destructor has seen some of the places. */
  ghost function PartEnded(was: seq<Life>, places: set<nat>): (r: seq<Life>)
    ensures |r| == |was|
  {
    seq(|was|, k requires 0 <= k < |was| => if k in places && was[k].status then Destroyed(was[k]) else was[k])
  }

  lemma PartEndedNone(was: seq<Life>)
    ensures PartEnded(was, {}) == was
  {
  }

  lemma PartEndedStep(was: seq<Life>, places: set<nat>, p: nat)
    requires p < |was| && p !in places
    ensures PartEnded(was, places)[p] == was[p]
    ensures PartEnded(was, places + {p})
         == PartEnded(was, places)[p := if was[p].status then Destroyed(was[p]) else was[p]]
  {
  }

  lemma PartEndedAll(st: State)
    ensures PartEnded(st.lives, st.ids.Values) == Ended(st).lives && Ended(st).ids == map[]
  {
  }

  /** The places of some of the services. */
  ghost function Places(services: map<int, Service>, ids: set<int>): set<nat> {
    set id | id in ids && id in services :: services[id].serial
  }

  lemma ForgetNext(st: State, ids: seq<int>, k: nat)
    requires k < |ids|
    ensures Forget(st, ids[..k + 1]) == Forget(Forget(st, ids[..k]), [ids[k]])
    ensures ids[k] !in Forget(st, ids[..k]).ids ==> Forget(st, ids[..k + 1]) == Forget(st, ids[..k])
  {
    assert forall id :: id in ids[..k + 1] <==> id in ids[..k] || id == ids[k];
    assert Forget(st, ids[..k + 1]).ids == Forget(Forget(st, ids[..k]), [ids[k]]).ids;
    if ids[k] !in Forget(st, ids[..k]).ids {
      assert Forget(st, ids[..k + 1]).ids == Forget(st, ids[..k]).ids;
    }
  }

  /** Any sequence of operations on a new scheduler, and then its destructor, leave exactly the lives
      the operations prescribe. */
  method WholeLife(commands: seq<Command>) returns (scheduler: Scheduler)
    ensures fresh(scheduler) && scheduler.Valid() && scheduler.services == map[] && scheduler.serviceScope == multiset{}
    ensures scheduler.Value() == Ended(Run(commands))
  {
    scheduler := new Scheduler();
    for i := 0 to |commands|
      invariant fresh(scheduler) && forall k :: 0 <= k < |scheduler.log| ==> fresh(scheduler.log[k])
      invariant scheduler.Valid() && scheduler.Value() == Run(commands[..i])
    {
      hide Apply;
      assert commands[..i + 1][..i] == commands[..i];
      ghost var was := scheduler.log;
      scheduler.Step(commands[i]);
      assert forall k :: 0 <= k < |was| ==> scheduler.log[..|was|][k] == was[k];
    }
    assert commands[..|commands|] == commands;
    scheduler.Destroy();
  }
}
