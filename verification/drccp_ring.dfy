/**
 The hash ring of `computation/drccp/server.cc` and the forward loop that walks it.

 Shares are real numbers, hashes 32-bit words.  `order` is the iteration order of the `shares`
 map, which depends on its keys only.  The clockwise search of `select_best_target` compares
 `code` with itself and so never runs: the lookup is an exact hit or the node itself.
 `Clockwise` is the search that was meant; the ring theorem is proved for both.
 */
module DrccpRing {
  import opened Prelude

  type SChar = c: int | -128 <= c < 128
  datatype Endpoint = Endpoint(addr: seq<SChar>, port: int)
  type Shares = map<Endpoint, real>

  const WORD := 0x1_0000_0000

  // ---------- hashcode ----------

  function Bits(x: int): bv32 { (x % WORD) as bv32 }

  /** One turn of the loop, in 32-bit arithmetic. */
  function HashStep(code: bv32, dat: SChar, port: int, i: nat): bv32 {
    (code * 31 + Bits(dat)) ^ (Bits(port) << (i % 32))
  }

  /** `code` after the first `n` characters. */
  function Hash(e: Endpoint, n: nat): bv32
    requires n <= |e.addr|
  {
    if n == 0 then 0
    else HashStep(Hash(e, n - 1), e.addr[n - 1], e.port, n - 1)
  }

  function HashCode(e: Endpoint): U32 { Hash(e, |e.addr|) as int }

  /** `hashcode`. */
  method ComputeHash(src: Endpoint) returns (code: bv32)
    ensures code as int == HashCode(src)
  {
    hide HashStep;
    code := 0x0;
    var i := 0;
    while i < |src.addr|
      invariant 0 <= i <= |src.addr| && code == Hash(src, i)
    {
      var dat := src.addr[i];
      code := HashStep(code, dat, src.port, i);
      i := i + 1;
    }
  }

  /** The hash of an empty address is 0 whatever the port; of one character it is the character, widened with
      its sign, mixed with the port; of two, one more turn. */
  lemma ShortHashes(c: SChar, d: SChar, port: int)
    ensures Hash(Endpoint([], port), 0) == 0
    ensures Hash(Endpoint([c], port), 1) == Bits(c) ^ Bits(port)
    ensures Hash(Endpoint([c, d], port), 2) == HashStep(Bits(c) ^ Bits(port), d, port, 1)
  {
    hide Bits, HashStep;
    var one, two := Endpoint([c], port), Endpoint([c, d], port);
    assert Hash(one, 1) == HashStep(0, c, port, 0) && Hash(two, 1) == HashStep(0, c, port, 0);
    assert Hash(two, 2) == HashStep(Hash(two, 1), d, port, 1);
    hide Hash;
    FirstStep(c, port);
  }

  lemma FirstStep(c: SChar, port: int)
    ensures HashStep(0, c, port, 0) == Bits(c) ^ Bits(port)
  {
    hide Bits;
  }

  /** A turn multiplies by 31, adds the character and mixes in the port, shifted by the turn's number. */
  lemma SecondStep(code: bv32, d: SChar, port: int)
    ensures HashStep(code, d, port, 1) == (code * 31 + Bits(d)) ^ (Bits(port) << 1)
  {
    hide Bits;
  }

  /** So the port enters the hash: two ports of one host with a one-character address share it only when
      their 32 bits agree. */
  lemma PortEnters(c: SChar, port: int, other: int)
    ensures Hash(Endpoint([c], port), 1) == Hash(Endpoint([c], other), 1) <==> Bits(port) == Bits(other)
  {
    ShortHashes(c, c, port);
    ShortHashes(c, c, other);
    hide Hash, Bits;
    XorExactly(Bits(c), Bits(port), Bits(other));
  }

  lemma XorExactly(a: bv32, x: bv32, y: bv32)
    ensures a ^ x == a ^ y <==> x == y
  {
  }

  // ---------- virtual nodes ----------

  /** `int node_limit = share * 4`; a negative limit runs no loop. */
  function Limit(share: real): nat {
    if share >= 0.0 then (share * 4.0).Floor else 0
  }

  /** The position of virtual node `i` of an endpoint with `limit` of them. */
  function Point(e: Endpoint, limit: nat, i: nat): U32
    requires i < limit
  {
    (HashCode(e) + 0xFFFF_FFFF / limit * i) % WORD
  }

  /** `limit` virtual nodes stand at `limit` different places. */
  lemma PointsDistinct(e: Endpoint, limit: nat, i: nat, j: nat)
    requires i < j < limit <= 0xFFFF_FFFF
    ensures Point(e, limit, i) != Point(e, limit, j)
  {
    hide HashCode;
    var interval := 0xFFFF_FFFF / limit;
    assert interval >= 1;
    SpreadStaysInWord(interval, limit, i, j);
    var d := interval * j - interval * i;
    assert 0 < d < WORD;
    ShiftedDiffer(HashCode(e) + interval * i, d);
  }

  lemma SpreadStaysInWord(interval: nat, limit: nat, i: nat, j: nat)
    requires i < j < limit && interval >= 1 && interval == 0xFFFF_FFFF / limit
    ensures 0 < interval * j - interval * i < WORD
  {
    assert interval * limit <= 0xFFFF_FFFF;
    assert interval * j - interval * i == interval * (j - i);
    assert interval * (j - i) <= interval * limit by { MulMonotone(interval, j - i, limit); }
    assert interval * (j - i) >= 1 by { MulMonotone(interval, 1, j - i); }
  }

  lemma MulMonotone(k: nat, a: nat, b: nat)
    requires a <= b
    ensures k * a <= k * b
  {
  }

  lemma ShiftedDiffer(x: nat, d: nat)
    requires 0 < d < WORD
    ensures x % WORD != (x + d) % WORD
  {
  }

  /** The first virtual node stands at the hash, and each next one a fixed way on, an equal part of the ring. */
  lemma PointsAreSpread(e: Endpoint, limit: nat, i: nat)
    requires i < limit
    ensures Point(e, limit, 0) == HashCode(e)
    ensures i + 1 < limit ==> Point(e, limit, i + 1) == (Point(e, limit, i) + 0xFFFF_FFFF / limit) % WORD
  {
    hide HashCode;
    var interval := 0xFFFF_FFFF / limit;
    assert interval * 0 == 0;
    assert interval * (i + 1) == interval * i + interval;
    AddBeforeWrap(HashCode(e) + interval * i, interval);
  }

  lemma AddBeforeWrap(x: nat, d: nat)
    ensures (x % WORD + d) % WORD == (x + d) % WORD
  {
  }

  /** `floor(4 * share)` virtual nodes. */
  lemma LimitIsFloor(share: real)
    ensures share >= 0.0 ==> (Limit(share) as real) <= 4.0 * share < (Limit(share) + 1) as real
    ensures share < 0.0 ==> Limit(share) == 0
  {
  }

  // ---------- the ring ----------

  predicate HasPoint(e: Endpoint, share: real, p: U32) {
    exists i :: 0 <= i < Limit(share) && Point(e, Limit(share), i) == p
  }

  ghost predicate Covers(order: seq<Endpoint>, shares: Shares) {
    forall e :: e in order ==> e in shares
  }

  /** The endpoint the ring holds at `p`: `insert` keeps the first comer. */
  function Owner(order: seq<Endpoint>, shares: Shares, p: U32): Option<Endpoint>
    requires Covers(order, shares)
  {
    if order == [] then None
    else
      match Owner(order[..|order| - 1], shares, p)
      case Some(e) => Some(e)
      case None =>
        var e := order[|order| - 1];
        if HasPoint(e, shares[e], p) then Some(e) else None
  }

  /** The exact lookup, which is what the code does. */
  function Select(order: seq<Endpoint>, shares: Shares, self: Endpoint, source: Endpoint): Endpoint
    requires Covers(order, shares)
  {
    match Owner(order, shares, HashCode(source)) case Some(e) => e case None => self
  }

  /** The first endpoint met going up from `p`, within `steps` places. */
  function Clockwise(order: seq<Endpoint>, shares: Shares, self: Endpoint, p: U32, steps: nat): Endpoint
    requires Covers(order, shares)
    decreases steps
  {
    if steps == 0 then self
    else
      match Owner(order, shares, p)
      case Some(e) => e
      case None => Clockwise(order, shares, self, (p + 1) % WORD, steps - 1)
  }

  /** First inserted wins: the owner is the first endpoint in map order with a point there. */
  lemma {:induction false} FirstInsertedWins(order: seq<Endpoint>, shares: Shares, p: U32)
    requires Covers(order, shares)
    ensures match Owner(order, shares, p)
            case None => forall i :: 0 <= i < |order| ==> !HasPoint(order[i], shares[order[i]], p)
            case Some(e) => exists k :: 0 <= k < |order| && order[k] == e && HasPoint(e, shares[e], p)
                              && forall i :: 0 <= i < k ==> !HasPoint(order[i], shares[order[i]], p)
  {
    hide HasPoint;
    if order != [] {
      var n := |order| - 1;
      FirstInsertedWins(order[..n], shares, p);
      match Owner(order[..n], shares, p) {
        case Some(e) =>
          var k :| 0 <= k < n && order[..n][k] == e && HasPoint(e, shares[e], p)
                     && forall i :: 0 <= i < k ==> !HasPoint(order[..n][i], shares[order[..n][i]], p);
          assert forall i :: 0 <= i < k ==> order[..n][i] == order[i];
        case None =>
          assert forall i :: 0 <= i < n ==> order[..n][i] == order[i];
      }
    }
  }

  ghost function PlacesTaken(e: Endpoint, limit: nat, n: nat): set<U32>
    requires n <= limit
  {
    if n == 0 then {} else PlacesTaken(e, limit, n - 1) + {Point(e, limit, n - 1)}
  }

  lemma {:induction false} PlacesAre(e: Endpoint, limit: nat, n: nat, p: U32)
    requires n <= limit
    ensures p in PlacesTaken(e, limit, n) <==> exists i :: 0 <= i < n && Point(e, limit, i) == p
  {
    hide Point;
    if n > 0 { PlacesAre(e, limit, n - 1, p); }
  }

  lemma {:induction false} PlacesCounted(e: Endpoint, limit: nat, n: nat)
    requires n <= limit <= 0xFFFF_FFFF
    ensures |PlacesTaken(e, limit, n)| == n
  {
    hide Point;
    if n > 0 {
      PlacesCounted(e, limit, n - 1);
      PlacesAre(e, limit, n - 1, Point(e, limit, n - 1));
      forall i | 0 <= i < n - 1 ensures Point(e, limit, i) != Point(e, limit, n - 1) { PointsDistinct(e, limit, i, n - 1); }
    }
  }

  /** On a ring of its own an endpoint holds exactly `floor(4 * share)` places. */
  lemma AloneOnTheRing(e: Endpoint, share: real)
    requires Limit(share) <= 0xFFFF_FFFF
    ensures |PlacesTaken(e, Limit(share), Limit(share))| == Limit(share)
    ensures forall p :: p in PlacesTaken(e, Limit(share), Limit(share)) <==> Owner([e], map[e := share], p) == Some(e)
  {
    var limit := Limit(share);
    PlacesCounted(e, limit, limit);
    forall p: U32 ensures p in PlacesTaken(e, limit, limit) <==> Owner([e], map[e := share], p) == Some(e) {
      PlacesAre(e, limit, limit, p);
      assert Owner([e][..0], map[e := share], p) == None;
    }
  }

  lemma NoShareNoPoint(e: Endpoint, share: real, p: U32)
    requires share < 0.25
    ensures !HasPoint(e, share, p)
  {
    assert Limit(share) == 0;
  }

  /** Zeroing one share takes that endpoint off the ring and moves no other point. */
  lemma {:induction false} OwnerAfterZero(order: seq<Endpoint>, shares: Shares, gone: Endpoint, p: U32)
    requires Covers(order, shares)
    ensures Covers(order, shares[gone := 0.0])
    ensures Owner(order, shares[gone := 0.0], p) != Some(gone)
    ensures Owner(order, shares, p) != Some(gone) ==> Owner(order, shares[gone := 0.0], p) == Owner(order, shares, p)
  {
    hide HasPoint;
    if order != [] {
      OwnerAfterZero(order[..|order| - 1], shares, gone, p);
      NoShareNoPoint(gone, 0.0, p);
    }
  }

  /** With the lookup as written, a source changes its target only if it was routed to the
      endpoint that lost its share. */
  lemma ZeroMovesOnlyItsSources(order: seq<Endpoint>, shares: Shares, self: Endpoint, gone: Endpoint, source: Endpoint)
    requires Covers(order, shares)
    ensures Covers(order, shares[gone := 0.0])
    ensures Select(order, shares[gone := 0.0], self, source) != Select(order, shares, self, source)
            ==> Owner(order, shares, HashCode(source)) == Some(gone)
  {
    hide HashCode;
    OwnerAfterZero(order, shares, gone, HashCode(source));
  }

  /** The same for the clockwise search that was meant. */
  lemma {:induction false} ZeroMovesOnlyItsSourcesClockwise(
    order: seq<Endpoint>, shares: Shares, self: Endpoint, gone: Endpoint, p: U32, steps: nat)
    requires Covers(order, shares)
    ensures Covers(order, shares[gone := 0.0])
    ensures Clockwise(order, shares[gone := 0.0], self, p, steps) != Clockwise(order, shares, self, p, steps)
            ==> Clockwise(order, shares, self, p, steps) == gone
    decreases steps
  {
    OwnerAfterZero(order, shares, gone, p);
    if steps > 0 && Owner(order, shares, p).None? {
      ZeroMovesOnlyItsSourcesClockwise(order, shares, self, gone, (p + 1) % WORD, steps - 1);
    }
  }

  // ---------- the forward loop ----------

  /** Peers that can be chosen at all. */
  function Selectable(shares: Shares, self: Endpoint): set<Endpoint> {
    set e | e in shares && e != self && shares[e] >= 0.25
  }

  lemma SelectedHasShare(order: seq<Endpoint>, shares: Shares, self: Endpoint, source: Endpoint)
    requires Covers(order, shares)
    ensures var t := Select(order, shares, self, source); t != self ==> t in Selectable(shares, self)
  {
    hide HasPoint, HashCode;
    FirstInsertedWins(order, shares, HashCode(source));
    var t := Select(order, shares, self, source);
    if t != self && shares[t] < 0.25 {
      NoShareNoPoint(t, shares[t], HashCode(source));
    }
  }

  /** A failed forward to a peer removes exactly that peer from the selectable ones. */
  lemma FailureRemoves(shares: Shares, self: Endpoint, t: Endpoint)
    ensures Selectable(shares[t := 0.0], self) == Selectable(shares, self) - {t}
    ensures self !in Selectable(shares, self)
  {
  }

  /** The targets tried while every forward fails, and the shares afterwards. */
  function Tried(order: seq<Endpoint>, shares: Shares, self: Endpoint, source: Endpoint, n: nat): (r: (seq<Endpoint>, Shares))
    requires Covers(order, shares)
    ensures |r.0| == n && Covers(order, r.1)
  {
    if n == 0 then ([], shares)
    else
      var (ts, sh) := Tried(order, shares, self, source, n - 1);
      var t := Select(order, sh, self, source);
      (ts + [t], sh[t := 0.0])
  }

  lemma TriedNext(order: seq<Endpoint>, shares: Shares, self: Endpoint, source: Endpoint, n: nat)
    requires Covers(order, shares)
    ensures var (ts, sh) := Tried(order, shares, self, source, n);
            var t := Select(order, sh, self, source);
            Tried(order, shares, self, source, n + 1) == (ts + [t], sh[t := 0.0])
  {
  }

  lemma SelectedIsKnown(order: seq<Endpoint>, shares: Shares, self: Endpoint, source: Endpoint)
    requires Covers(order, shares) && self in shares
    ensures Select(order, shares, self, source) in shares
  {
    hide HashCode, HasPoint, Owner;
    FirstInsertedWins(order, shares, HashCode(source));
  }

  function Peers(targets: seq<Endpoint>, self: Endpoint): set<Endpoint> {
    set t | t in targets && t != self
  }

  /** No peer is tried twice; when the node itself is not among the targets, each is a new peer. */
  ghost predicate PeersOnce(targets: seq<Endpoint>, self: Endpoint) {
    && (forall i, j :: 0 <= i < j < |targets| && targets[i] == targets[j] ==> targets[i] == self)
    && (self !in targets ==> |Peers(targets, self)| == |targets|)
  }

  lemma PeersPush(targets: seq<Endpoint>, self: Endpoint, t: Endpoint)
    requires PeersOnce(targets, self) && (t == self || t !in Peers(targets, self))
    ensures Peers(targets + [t], self) == Peers(targets, self) + if t == self then {} else {t}
    ensures PeersOnce(targets + [t], self)
  {
    var ts := targets + [t];
    assert ts[|targets|] == t;
    if t != self {
      assert Peers(ts, self) == Peers(targets, self) + {t};
    }
  }

  /** The peers tried were selectable and no longer are; none is tried twice. */
  lemma {:induction false} PeersTriedOnce(order: seq<Endpoint>, shares: Shares, self: Endpoint, source: Endpoint, n: nat)
    requires Covers(order, shares)
    ensures var (ts, sh) := Tried(order, shares, self, source, n);
            && Peers(ts, self) <= Selectable(shares, self)
            && Selectable(sh, self) == Selectable(shares, self) - Peers(ts, self)
            && PeersOnce(ts, self)
  {
    hide Owner, HashCode, Selectable, Covers, Select, PeersOnce, Peers;
    if n == 0 {
      NoPeers(self);
    } else {
      PeersTriedOnce(order, shares, self, source, n - 1);
      var (ts, sh) := Tried(order, shares, self, source, n - 1);
      var t := Select(order, sh, self, source);
      SelectedHasShare(order, sh, self, source);
      FailureRemoves(sh, self, t);
      PeersPush(ts, self, t);
    }
  }

  lemma NoPeers(self: Endpoint)
    ensures Peers([], self) == {} && PeersOnce([], self)
  {
  }

  lemma SubsetIsSmaller<T>(a: set<T>, b: set<T>)
    requires a <= b
    ensures |a| <= |b|
  {
    if a != {} {
      var x :| x in a;
      SubsetIsSmaller(a - {x}, b - {x});
    }
  }

  /** After at most as many failures as there are selectable peers the task goes to the node itself. */
  lemma ForwardReachesSelf(order: seq<Endpoint>, shares: Shares, self: Endpoint, source: Endpoint, n: nat)
    requires Covers(order, shares) && n > |Selectable(shares, self)|
    ensures self in Tried(order, shares, self, source, n).0
  {
    PeersTriedOnce(order, shares, self, source, n);
    hide Tried, Selectable;
    var ts := Tried(order, shares, self, source, n).0;
    SubsetIsSmaller(Peers(ts, self), Selectable(shares, self));
  }

  class Server {
    const self: Endpoint
    var shares: Shares

    constructor (self: Endpoint)
      ensures this.self == self && shares == map[self := 1.0]
    {
      this.self, shares := self, map[self := 1.0];
    }

    /** `select_best_target`: the ring is rebuilt for every lookup. */
    method SelectBestTarget(order: seq<Endpoint>, source: Endpoint) returns (target: Endpoint)
      requires Covers(order, shares)
      ensures target == Select(order, shares, self, source)
    {
      hide Hash;
      var hashCycle: map<U32, Endpoint> := map[];
      for k := 0 to |order|
        invariant forall p: U32 :: Held(hashCycle, p) == Owner(order[..k], shares, p)
      {
        assert order[..k + 1][..k] == order[..k];
        ghost var before := hashCycle;
        hashCycle := InsertPoints(hashCycle, order[k], shares[order[k]]);
        forall p: U32 ensures Held(hashCycle, p) == Owner(order[..k + 1], shares, p) {
          assert Held(before, p) == Owner(order[..k], shares, p);
        }
      }
      assert order[..|order|] == order;
      var code := ComputeHash(source);
      assert Held(hashCycle, HashCode(source)) == Owner(order, shares, HashCode(source));
      var at: U32 := code as int;
      if at in hashCycle {
        return hashCycle[at];
      }
      // The loop that should go on clockwise tests `code != code` and is never entered.
      return self;
    }

    /** The inner loop: every virtual node of one endpoint, each inserted if its place is free. */
    method InsertPoints(hashCycle: map<U32, Endpoint>, e: Endpoint, share: real) returns (cycle: map<U32, Endpoint>)
      ensures forall p: U32 :: Held(cycle, p) ==
                if Held(hashCycle, p).Some? then Held(hashCycle, p) else if HasPoint(e, share, p) then Some(e) else None
    {
      hide HashCode;
      cycle := hashCycle;
      var nodeLimit := Limit(share);
      var i := 0;
      while i < nodeLimit
        invariant 0 <= i <= nodeLimit
        invariant forall p: U32 :: Held(cycle, p) ==
                    if Held(hashCycle, p).Some? then Held(hashCycle, p)
                    else if exists k :: 0 <= k < i && Point(e, nodeLimit, k) == p then Some(e) else None
      {
        var point := Point(e, nodeLimit, i);
        if point !in cycle {
          cycle := cycle[point := e];
        }
        i := i + 1;
      }
    }

    /** The repeater: forward, and on failure zero the target's share and try again.  `outcomes`
        says which attempts succeed; the loop ends with the first success. */
    method Forward(order: seq<Endpoint>, source: Endpoint, outcomes: seq<bool>) returns (targets: seq<Endpoint>, success: bool)
      requires Covers(order, shares) && self in shares
      modifies this
      ensures success <==> true in outcomes
      ensures !success ==> (targets, shares) == Tried(order, old(shares), self, source, |outcomes|)
      ensures success ==>
                exists n :: 0 <= n < |outcomes| && outcomes[n] && (forall i :: 0 <= i < n ==> !outcomes[i])
                  && targets == Tried(order, old(shares), self, source, n + 1).0
                  && var before := Tried(order, old(shares), self, source, n).1;
                     var t := targets[n];
                     t in before && shares == before[t := before[t] + 0.5]
    {
      targets, success := [], false;
      var i := 0;
      while i < |outcomes|
        invariant 0 <= i <= |outcomes| && Covers(order, shares) && self in shares
        invariant forall k :: 0 <= k < i ==> !outcomes[k]
        invariant (targets, shares) == Tried(order, old(shares), self, source, i)
      {
        var target := SelectBestTarget(order, source);
        TriedNext(order, old(shares), self, source, i);
        SelectedIsKnown(order, shares, self, source);
        hide Select, Tried;
        targets := targets + [target];
        if outcomes[i] {
          assert targets[i] == target;
          shares := shares[target := shares[target] + 0.5];
          success := true;
          return;
        }
        shares := shares[target := 0.0];
        i := i + 1;
      }
    }
  }

  function Held(cycle: map<U32, Endpoint>, p: U32): Option<Endpoint> {
    if p in cycle then Some(cycle[p]) else None
  }
}
