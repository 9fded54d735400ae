/**
 Gossip of load shares between the nodes of a cluster (`computation/drccp/server.cc`).

 Shares are reals.  A message carries the address it claims to come from and any list of the
 sender's share entries; the code as written builds messages with an empty list, since
 `setup_share_resp` is never called.  The network may lose, repeat and reorder messages: once sent
 a message can be delivered at any time.  Source and destination of a message are kept apart.
 */
module DrccpGossip {
  import opened Prelude
  import opened DrccpRing

  type Report = seq<(Endpoint, real)>

  // ---------- update_shares ----------

  function Damped(sum: real, w: real): real
    requires w != 0.0
  {
    sum / (1.5 * w)
  }

  /** The weighted mean of two reports, damped by 1.5. */
  function Merged(mine: real, theirs: real, selfShare: real, peerShare: real): real
    requires selfShare + peerShare != 0.0
  {
    Damped(mine * selfShare + theirs * peerShare, selfShare + peerShare)
  }

  /** The loop over the report; `None` is a division by zero. */
  function MergeAll(shares: Shares, report: Report, selfShare: real, peerShare: real): Option<Shares> {
    if report == [] then Some(shares)
    else
      match MergeAll(shares, report[..|report| - 1], selfShare, peerShare)
      case None => None
      case Some(sh) =>
        var (neigh, share) := report[|report| - 1];
        if neigh !in sh then Some(sh[neigh := share / 1.5])
        else if selfShare + peerShare == 0.0 then None
        else Some(sh[neigh := Merged(sh[neigh], share, selfShare, peerShare)])
  }

  function PeerShare(shares: Shares, peer: Endpoint): real {
    if peer in shares then shares[peer] else 1.0
  }

  /** `update_shares`: both weights are read before the loop. */
  function Updated(shares: Shares, self: Endpoint, peer: Endpoint, report: Report): Option<Shares> {
    if self !in shares then None else MergeAll(shares, report, shares[self], PeerShare(shares, peer))
  }

  class Node {
    const self: Endpoint
    var shares: Shares

    constructor (self: Endpoint)
      ensures this.self == self && shares == map[self := 1.0]
    {
      this.self, shares := self, map[self := 1.0];
    }

    method UpdateShares(peer: Endpoint, report: Report) returns (ok: bool)
      modifies this
      ensures ok <==> Updated(old(shares), self, peer, report).Some?
      ensures ok ==> shares == Updated(old(shares), self, peer, report).value
    {
      if self !in shares { return false; }
      var peerShare := if peer in shares then shares[peer] else 1.0;
      var selfShare := shares[self];
      var i := 0;
      while i < |report|
        invariant 0 <= i <= |report|
        invariant MergeAll(old(shares), report[..i], selfShare, peerShare) == Some(shares)
      {
        assert report[..i + 1][..i] == report[..i];
        var (neigh, neighShare) := report[i];
        if neigh in shares {
          if selfShare + peerShare == 0.0 {
            MergeStops(old(shares), report, selfShare, peerShare, i + 1);
            return false;
          }
          shares := shares[neigh := Merged(shares[neigh], neighShare, selfShare, peerShare)];
        } else {
          shares := shares[neigh := neighShare / 1.5];
        }
        i := i + 1;
      }
      assert report[..|report|] == report;
      ok := true;
    }
  }

  lemma {:induction false} MergeStops(shares: Shares, report: Report, selfShare: real, peerShare: real, n: nat)
    requires n <= |report| && MergeAll(shares, report[..n], selfShare, peerShare).None?
    ensures MergeAll(shares, report, selfShare, peerShare).None?
    decreases |report| - n
  {
    if n < |report| {
      assert report[..n + 1][..n] == report[..n];
      MergeStops(shares, report, selfShare, peerShare, n + 1);
    } else {
      assert report[..n] == report;
    }
  }

  // ---------- one merge ----------

  function Min(a: real, b: real): real { if a < b then a else b }
  function Max(a: real, b: real): real { if a < b then b else a }

  lemma Scale(a: real, b: real, k: real)
    requires a <= b && k >= 0.0
    ensures a * k <= b * k
  {
  }

  lemma Distribute(k: real, a: real, b: real)
    ensures k * (a + b) == k * a + k * b
  {
  }

  /** The damped quotient, between bounds given as products. */
  lemma DampedBetween(lo: real, hi: real, sum: real, w: real)
    requires w > 0.0 && lo * w <= sum <= hi * w
    ensures lo * 2.0 / 3.0 <= Damped(sum, w) <= hi * 2.0 / 3.0
  {
    var q := sum / w;
    assert q * w == sum;
    Cancel(lo, q, w);
    Cancel(q, hi, w);
    DampedQuotient(sum, w);
  }

  lemma Cancel(a: real, b: real, w: real)
    requires w > 0.0 && a * w <= b * w
    ensures a <= b
  {
  }

  lemma DampedQuotient(sum: real, w: real)
    requires w > 0.0
    ensures Damped(sum, w) == sum / w / 1.5
  {
  }

  /** A merged share lies between two thirds of the smaller and two thirds of the larger report. */
  lemma MergedBetween(mine: real, theirs: real, selfShare: real, peerShare: real)
    requires selfShare >= 0.0 && peerShare >= 0.0 && selfShare + peerShare > 0.0
    ensures Min(mine, theirs) * 2.0 / 3.0 <= Merged(mine, theirs, selfShare, peerShare) <= Max(mine, theirs) * 2.0 / 3.0
  {
    hide Damped;
    var lo, hi := Min(mine, theirs), Max(mine, theirs);
    var sum, w := mine * selfShare + theirs * peerShare, selfShare + peerShare;
    assert Merged(mine, theirs, selfShare, peerShare) == Damped(sum, w);
    Scale(lo, mine, selfShare);
    Scale(lo, theirs, peerShare);
    Scale(mine, hi, selfShare);
    Scale(theirs, hi, peerShare);
    Distribute(lo, selfShare, peerShare);
    Distribute(hi, selfShare, peerShare);
    hide Min, Max, Merged;
    DampedBetween(lo, hi, sum, w);
  }

  lemma MergedPositive(mine: real, theirs: real, selfShare: real, peerShare: real)
    requires mine > 0.0 && theirs >= 0.0 && selfShare > 0.0 && peerShare >= 0.0
    ensures Merged(mine, theirs, selfShare, peerShare) > 0.0
  {
    var sum, d := mine * selfShare + theirs * peerShare, 1.5 * (selfShare + peerShare);
    assert mine * selfShare > 0.0 && theirs * peerShare >= 0.0;
    assert sum / d > 0.0;
  }

  lemma DampedExactly(m: real, sum: real, w: real)
    requires w != 0.0
    ensures m == Damped(sum, w) <==> m * w * 1.5 == sum
  {
    var d := 1.5 * w;
    assert d != 0.0;
    QuotientExactly(m, sum, d);
    assert m * d == m * w * 1.5;
  }

  lemma QuotientExactly(m: real, sum: real, d: real)
    requires d != 0.0
    ensures m == sum / d <==> m * d == sum
  {
  }

  /** The lever law, which fixes the merge: measured from two thirds of either report, the merged share is
      at distances in inverse proportion to the weights. */
  lemma MergedExactly(m: real, mine: real, theirs: real, selfShare: real, peerShare: real)
    requires selfShare + peerShare != 0.0
    ensures m == Merged(mine, theirs, selfShare, peerShare)
       <==> (m - mine * 2.0 / 3.0) * selfShare == (theirs * 2.0 / 3.0 - m) * peerShare
  {
    var sum, w := mine * selfShare + theirs * peerShare, selfShare + peerShare;
    DampedExactly(m, sum, w);
    hide Damped;
    assert Merged(mine, theirs, selfShare, peerShare) == Damped(sum, w);
    hide Merged;
    LeverIs(m, mine, theirs, selfShare, peerShare);
  }

  lemma LeverIs(m: real, a: real, b: real, x: real, y: real)
    ensures (m - a * 2.0 / 3.0) * x == (b * 2.0 / 3.0 - m) * y <==> m * (x + y) * 1.5 == a * x + b * y
  {
    Distribute(m, x, y);
    assert (m - a * 2.0 / 3.0) * x == m * x - a * x * 2.0 / 3.0;
    assert (b * 2.0 / 3.0 - m) * y == b * y * 2.0 / 3.0 - m * y;
  }

  lemma MergedIsLevered(mine: real, theirs: real, selfShare: real, peerShare: real)
    requires selfShare + peerShare != 0.0
    ensures var m := Merged(mine, theirs, selfShare, peerShare);
            (m - mine * 2.0 / 3.0) * selfShare == (theirs * 2.0 / 3.0 - m) * peerShare
  {
    MergedExactly(Merged(mine, theirs, selfShare, peerShare), mine, theirs, selfShare, peerShare);
  }

  /** The two reports play the same part. */
  lemma MergedSymmetric(mine: real, theirs: real, selfShare: real, peerShare: real)
    requires selfShare + peerShare != 0.0
    ensures Merged(mine, theirs, selfShare, peerShare) == Merged(theirs, mine, peerShare, selfShare)
  {
    assert mine * selfShare + theirs * peerShare == theirs * peerShare + mine * selfShare;
  }

  /** A report of no weight does not count. */
  lemma MergedAtTheEnds(mine: real, theirs: real, weight: real)
    requires weight != 0.0
    ensures Merged(mine, theirs, 0.0, weight) == theirs * 2.0 / 3.0
    ensures Merged(mine, theirs, weight, 0.0) == mine * 2.0 / 3.0
  {
    MergedExactly(theirs * 2.0 / 3.0, mine, theirs, 0.0, weight);
    MergedExactly(mine * 2.0 / 3.0, mine, theirs, weight, 0.0);
    hide Merged;
  }

  /** A merge moves the share up, from two thirds of the own report, exactly when the other report is higher
      and has weight. */
  lemma MergedRisesExactly(mine: real, theirs: real, selfShare: real, peerShare: real)
    requires selfShare >= 0.0 && peerShare >= 0.0 && selfShare + peerShare > 0.0
    ensures Merged(mine, theirs, selfShare, peerShare) > mine * 2.0 / 3.0 <==> peerShare > 0.0 && theirs > mine
  {
    MergedIsLevered(mine, theirs, selfShare, peerShare);
    var m := Merged(mine, theirs, selfShare, peerShare);
    hide Merged;
    LeverRises(m - mine * 2.0 / 3.0, theirs * 2.0 / 3.0 - m, selfShare, peerShare);
  }

  lemma LeverRises(up: real, down: real, x: real, y: real)
    requires x >= 0.0 && y >= 0.0 && x + y > 0.0 && up * x == down * y
    ensures up > 0.0 <==> y > 0.0 && up + down > 0.0
  {
    SignOfProduct(up, x);
    SignOfProduct(down, y);
  }

  lemma SignOfProduct(a: real, w: real)
    requires w >= 0.0
    ensures w == 0.0 ==> a * w == 0.0
    ensures w > 0.0 ==> (a * w > 0.0 <==> a > 0.0) && (a * w == 0.0 <==> a == 0.0)
  {
  }

  // ---------- one update ----------

  ghost predicate NonNegative(shares: Shares) {
    forall e :: e in shares ==> shares[e] >= 0.0
  }

  ghost predicate NonNegativeReport(report: Report) {
    forall i :: 0 <= i < |report| ==> report[i].1 >= 0.0
  }

  /** What holds of a node that has never failed to reach itself. */
  ghost predicate Healthy(shares: Shares, self: Endpoint) {
    self in shares && shares[self] > 0.0 && NonNegative(shares)
  }

  lemma {:induction false} MergeKeeps(shares: Shares, self: Endpoint, report: Report, selfShare: real, peerShare: real)
    requires Healthy(shares, self) && NonNegativeReport(report) && selfShare > 0.0 && peerShare >= 0.0
    ensures var r := MergeAll(shares, report, selfShare, peerShare);
            r.Some? && Healthy(r.value, self) && shares.Keys <= r.value.Keys
  {
    hide Merged;
    if report != [] {
      var front := report[..|report| - 1];
      MergeKeeps(shares, self, front, selfShare, peerShare);
      var sh := MergeAll(shares, front, selfShare, peerShare).value;
      var (neigh, share) := report[|report| - 1];
      assert share >= 0.0;
      if neigh in sh {
        MergedBetween(sh[neigh], share, selfShare, peerShare);
        if neigh == self { MergedPositive(sh[neigh], share, selfShare, peerShare); }
      }
    }
  }

  /** The update of a healthy node never divides by zero, drops nobody and keeps the node healthy. */
  lemma UpdateKeeps(shares: Shares, self: Endpoint, peer: Endpoint, report: Report)
    requires Healthy(shares, self) && NonNegativeReport(report)
    ensures var r := Updated(shares, self, peer, report);
            r.Some? && Healthy(r.value, self) && shares.Keys <= r.value.Keys
  {
    MergeKeeps(shares, self, report, shares[self], PeerShare(shares, peer));
  }

  /** The report merges some member, rather than only inserting new ones: one known before, or one it
      has named already. */
  ghost predicate Touches(shares: Shares, report: Report) {
    exists i :: 0 <= i < |report| && TouchedAt(shares, report, i)
  }

  ghost predicate TouchedAt(shares: Shares, report: Report, i: nat)
    requires i < |report|
  {
    report[i].0 in shares || Reported(report[..i], report[i].0)
  }

  ghost predicate Reported(report: Report, e: Endpoint) {
    exists j :: 0 <= j < |report| && report[j].0 == e
  }

  lemma ReportedPush(report: Report, entry: (Endpoint, real), e: Endpoint)
    ensures Reported(report + [entry], e) <==> Reported(report, e) || entry.0 == e
  {
    var all := report + [entry];
    if j :| 0 <= j < |report| && report[j].0 == e { assert all[j].0 == e; }
    if entry.0 == e { assert all[|report|].0 == e; }
  }

  lemma TouchesPush(shares: Shares, report: Report, entry: (Endpoint, real))
    ensures Touches(shares, report + [entry])
       <==> Touches(shares, report) || entry.0 in shares || Reported(report, entry.0)
  {
    hide Reported;
    var all := report + [entry];
    assert forall i :: 0 <= i <= |report| ==> all[..i] == report[..i];
    assert report[..|report|] == report;
    if i :| 0 <= i < |report| && TouchedAt(shares, report, i) {
      assert TouchedAt(shares, all, i);
    }
    if entry.0 in shares || Reported(report, entry.0) {
      assert TouchedAt(shares, all, |report|);
    }
    if Touches(shares, all) {
      var i :| 0 <= i < |all| && TouchedAt(shares, all, i);
      if i < |report| { assert TouchedAt(shares, report, i); }
    }
  }

  /** The loop fails exactly when the weights cancel and some entry is merged; otherwise it knows who
      was known or reported. */
  lemma {:induction false} MergeFailsExactly(shares: Shares, report: Report, selfShare: real, peerShare: real)
    ensures var r := MergeAll(shares, report, selfShare, peerShare);
            && (r.None? <==> selfShare + peerShare == 0.0 && Touches(shares, report))
            && (r.Some? ==> forall e :: e in r.value <==> e in shares || Reported(report, e))
  {
    hide Merged, Touches, Reported;
    if report == [] {
      NothingReported(shares);
    } else {
      var front, last := report[..|report| - 1], report[|report| - 1];
      assert report == front + [last];
      MergeFailsExactly(shares, front, selfShare, peerShare);
      TouchesPush(shares, front, last);
      forall e ensures Reported(report, e) <==> Reported(front, e) || last.0 == e { ReportedPush(front, last, e); }
    }
  }

  lemma NothingReported(shares: Shares)
    ensures !Touches(shares, []) && forall e :: !Reported([], e)
  {
  }

  /** For non-negative shares an update divides by zero if and only if the node's own share and the
      peer's share are both zero and the report merges some member. */
  lemma DividesByZeroExactly(shares: Shares, self: Endpoint, peer: Endpoint, report: Report)
    requires NonNegative(shares) && self in shares
    ensures Updated(shares, self, peer, report).None?
       <==> shares[self] == 0.0 && PeerShare(shares, peer) == 0.0 && Touches(shares, report)
  {
    MergeFailsExactly(shares, report, shares[self], PeerShare(shares, peer));
    hide MergeAll, Touches;
  }

  /** The report names `e` at `i` only. */
  ghost predicate NamedOnceAt(report: Report, e: Endpoint, i: int) {
    0 <= i < |report| && report[i].0 == e && forall j :: 0 <= j < |report| && report[j].0 == e ==> j == i
  }

  lemma {:induction false} UnnamedStays(shares: Shares, report: Report, selfShare: real, peerShare: real, e: Endpoint)
    requires MergeAll(shares, report, selfShare, peerShare).Some? && !Reported(report, e)
    ensures var now := MergeAll(shares, report, selfShare, peerShare).value;
            (e in now <==> e in shares) && (e in shares ==> now[e] == shares[e])
  {
    hide Merged, MergeAll, Reported;
    if report == [] {
      MergeNothing(shares, selfShare, peerShare);
    } else {
      var front, last := report[..|report| - 1], report[|report| - 1];
      assert report == front + [last];
      ReportedPush(front, last, e);
      MergePush(shares, front, last, selfShare, peerShare);
      UnnamedStays(shares, front, selfShare, peerShare, e);
    }
  }

  lemma MergeNothing(shares: Shares, selfShare: real, peerShare: real)
    ensures MergeAll(shares, [], selfShare, peerShare) == Some(shares)
  {
  }

  lemma MergePush(shares: Shares, report: Report, entry: (Endpoint, real), selfShare: real, peerShare: real)
    ensures MergeAll(shares, report + [entry], selfShare, peerShare) ==
              match MergeAll(shares, report, selfShare, peerShare)
              case None => None
              case Some(sh) =>
                if entry.0 !in sh then Some(sh[entry.0 := entry.1 / 1.5])
                else if selfShare + peerShare == 0.0 then None
                else Some(sh[entry.0 := Merged(sh[entry.0], entry.1, selfShare, peerShare)])
  {
    hide Merged;
    assert (report + [entry])[..|report|] == report;
  }

  lemma {:induction false} NamedOnceIsMerged(
    shares: Shares, report: Report, selfShare: real, peerShare: real, e: Endpoint, i: nat)
    requires MergeAll(shares, report, selfShare, peerShare).Some? && NamedOnceAt(report, e, i)
    ensures var now := MergeAll(shares, report, selfShare, peerShare).value;
            && e in now && (e in shares ==> selfShare + peerShare != 0.0)
            && now[e] == if e in shares then Merged(shares[e], report[i].1, selfShare, peerShare) else report[i].1 / 1.5
  {
    hide Merged, MergeAll;
    var front, last := report[..|report| - 1], report[|report| - 1];
    assert report == front + [last];
    MergePush(shares, front, last, selfShare, peerShare);
    if i == |front| {
      assert !Reported(front, e);
      UnnamedStays(shares, front, selfShare, peerShare, e);
    } else {
      assert NamedOnceAt(front, e, i);
      assert last.0 != e;
      NamedOnceIsMerged(shares, front, selfShare, peerShare, e, i);
    }
  }

  /** What an update does to each member.  Unnamed ones stay.  A new one, named once, enters with two thirds
      of what was reported.  A known one, named once, moves by the lever law, with the node's own share
      and the sender's share as weights, 1 for an unknown sender. */
  lemma UpdateExactly(shares: Shares, self: Endpoint, peer: Endpoint, report: Report, e: Endpoint)
    requires self in shares && Updated(shares, self, peer, report).Some?
    ensures var now := Updated(shares, self, peer, report).value;
            var weight := if peer in shares then shares[peer] else 1.0;
            && (!Reported(report, e) ==> (e in now <==> e in shares) && (e in shares ==> now[e] == shares[e]))
            && (forall i :: NamedOnceAt(report, e, i) ==>
                  && e in now
                  && (e !in shares ==> now[e] == report[i].1 * 2.0 / 3.0)
                  && (e in shares ==>
                        && (now[e] - shares[e] * 2.0 / 3.0) * shares[self] == (report[i].1 * 2.0 / 3.0 - now[e]) * weight
                        && shares[self] + weight != 0.0))
  {
    var weight := if peer in shares then shares[peer] else 1.0;
    if !Reported(report, e) {
      UnnamedStays(shares, report, shares[self], weight, e);
    }
    forall i | NamedOnceAt(report, e, i)
      ensures var now := Updated(shares, self, peer, report).value;
              && e in now
              && (e !in shares ==> now[e] == report[i].1 * 2.0 / 3.0)
              && (e in shares ==>
                    && (now[e] - shares[e] * 2.0 / 3.0) * shares[self] == (report[i].1 * 2.0 / 3.0 - now[e]) * weight
                    && shares[self] + weight != 0.0)
    {
      NamedOnceIsMerged(shares, report, shares[self], weight, e, i);
      if e in shares { MergedIsLevered(shares[e], report[i].1, shares[self], weight); }
      hide Merged, MergeAll;
    }
  }

  /** So a known member's share rises from two thirds of itself exactly when a sender of weight reports more. */
  lemma UpdateRisesExactly(shares: Shares, self: Endpoint, peer: Endpoint, report: Report, e: Endpoint, i: nat)
    requires NonNegative(shares) && self in shares && e in shares && NamedOnceAt(report, e, i)
    requires Updated(shares, self, peer, report).Some?
    ensures var now := Updated(shares, self, peer, report).value;
            && e in now
            && ((now[e] > shares[e] * 2.0 / 3.0) <==>
                (report[i].1 > shares[e] && (peer in shares ==> shares[peer] > 0.0)))
  {
    var weight := if peer in shares then shares[peer] else 1.0;
    NamedOnceIsMerged(shares, report, shares[self], weight, e, i);
    MergedRisesExactly(shares[e], report[i].1, shares[self], weight);
    hide Merged, MergeAll;
  }

  // ---------- the cluster ----------

  datatype Message = Message(src: Endpoint, dst: Endpoint, report: Report)

  /** The running nodes' maps and every message sent so far. */
  datatype World = World(nodes: map<Endpoint, Shares>, sent: set<Message>)

  datatype Event =
    | Start(n: Endpoint)                             // start: the node's own share is 1
    | Send(m: Message)                               // any request or reply
    | Signin(n: Endpoint, m: Message)                // the reply to MEET: unknown members are inserted
    | Meet(n: Endpoint, m: Message)                  // MEET: the sender is inserted, then merged
    | Gossip(n: Endpoint, m: Message)                // HELLO, or the reply to one
    | UpdateFailed(n: Endpoint, peer: Endpoint)      // a HELLO to a peer failed
    | ForwardFailed(n: Endpoint, target: Endpoint)
    | ForwardDone(n: Endpoint, target: Endpoint)
    | Executed(n: Endpoint)                          // FORWARD: the task ran here

  /** A running node reports shares it holds; a stranger's report need only be non-negative. */
  ghost predicate MaySend(w: World, m: Message) {
    if m.src in w.nodes then
      forall i :: 0 <= i < |m.report| ==>
        m.report[i].0 in w.nodes[m.src] && m.report[i].1 == w.nodes[m.src][m.report[i].0]
    else NonNegativeReport(m.report)
  }

  /** When an event can happen. */
  ghost predicate Enabled(w: World, e: Event) {
    match e
    case Start(n) => n !in w.nodes
    case Send(m) => MaySend(w, m)
    case Signin(n, m) => n in w.nodes && m in w.sent
    case Meet(n, m) => n in w.nodes && m in w.sent
    case Gossip(n, m) => n in w.nodes && m in w.sent
    case UpdateFailed(n, peer) => n in w.nodes && peer != n
    case ForwardFailed(n, target) => n in w.nodes
    case ForwardDone(n, target) => n in w.nodes
    case Executed(n) => n in w.nodes
  }

  function InsertAll(shares: Shares, report: Report): Shares {
    if report == [] then shares
    else
      var sh := InsertAll(shares, report[..|report| - 1]);
      var (neigh, share) := report[|report| - 1];
      if neigh in sh then sh else sh[neigh := share]
  }

  function Gain(shares: Shares, e: Endpoint): Shares {
    shares[e := (if e in shares then shares[e] else 0.0) + 0.5]
  }

  /** The node's map after an event at it; `None` is a division by zero. */
  function NodeStep(shares: Shares, e: Event): Option<Shares> {
    match e
    case Start(n) => Some(map[n := 1.0])
    case Send(_) => Some(shares)
    case Signin(_, m) => Some(InsertAll(shares, m.report))
    case Meet(n, m) => Updated(if m.src in shares then shares else shares[m.src := 1.0], n, m.src, m.report)
    case Gossip(n, m) => Updated(shares, n, m.src, m.report)
    case UpdateFailed(_, peer) => Some(shares[peer := 0.0])
    case ForwardFailed(_, target) => Some(shares[target := 0.0])
    case ForwardDone(_, target) => Some(Gain(shares, target))
    case Executed(n) => Some(Gain(shares, n))
  }

  function Step(w: World, e: Event): Option<World> {
    match e
    case Send(m) => Some(w.(sent := w.sent + {m}))
    case _ =>
      match NodeStep(if e.n in w.nodes then w.nodes[e.n] else map[], e)
      case None => None
      case Some(sh) => Some(w.(nodes := w.nodes[e.n := sh]))
  }

  /** An event divides by zero exactly when it is a merge of a report that touches a member, at a node
      whose own share and whose share for the sender are both zero; a sender met for the first time
      has share 1. */
  lemma EventDividesByZeroExactly(shares: Shares, e: Event)
    requires !e.Send? && !e.Start? && NonNegative(shares) && e.n in shares
    ensures NodeStep(shares, e).None? <==>
            && (e.Gossip? || e.Meet?) && shares[e.n] == 0.0 && Touches(shares, e.m.report)
            && e.m.src in shares && shares[e.m.src] == 0.0
  {
    hide Touches, Updated;
    match e {
      case Gossip(n, m) => DividesByZeroExactly(shares, n, m.src, m.report);
      case Meet(n, m) =>
        DividesByZeroExactly(if m.src in shares then shares else shares[m.src := 1.0], n, m.src, m.report);
      case _ =>
    }
  }

  /** A reply to MEET brings in unknown members with what it first reports of them, and changes no other. */
  lemma {:induction false} SigninInserts(shares: Shares, report: Report, e: Endpoint)
    ensures var now := InsertAll(shares, report);
            && (e in now <==> e in shares || Reported(report, e))
            && (e in shares ==> now[e] == shares[e])
            && (e !in shares ==> forall i :: 0 <= i < |report| && report[i].0 == e && !Reported(report[..i], e) ==>
                  e in now && now[e] == report[i].1)
  {
    hide Reported;
    if report == [] {
      NothingReported(shares);
    } else {
      var front, last := report[..|report| - 1], report[|report| - 1];
      assert report == front + [last];
      SigninInserts(shares, front, e);
      ReportedPush(front, last, e);
      if e !in shares {
        forall i | 0 <= i < |report| && report[i].0 == e && !Reported(report[..i], e)
          ensures e in InsertAll(shares, report) && InsertAll(shares, report)[e] == report[i].1
        {
          if i < |front| {
            assert front[..i] == report[..i];
          } else {
            assert report[..i] == front;
          }
        }
      }
    }
  }

  /** Points on the ring through the life of a share: a node starts with four, a failure leaves none, and
      every task done adds two. */
  lemma PointsThroughEvents(shares: Shares, n: Endpoint, t: Endpoint)
    requires NonNegative(shares)
    ensures Limit(NodeStep(shares, Start(n)).value[n]) == 4
    ensures Limit(NodeStep(shares, ForwardFailed(n, t)).value[t]) == 0
    ensures Limit(NodeStep(shares, UpdateFailed(n, t)).value[t]) == 0
    ensures t in shares ==> Limit(NodeStep(shares, ForwardDone(n, t)).value[t]) == Limit(shares[t]) + 2
    ensures n in shares ==> Limit(NodeStep(shares, Executed(n)).value[n]) == Limit(shares[n]) + 2
    ensures forall e :: e in shares && e != t ==>
              && NodeStep(shares, ForwardFailed(n, t)).value[e] == shares[e]
              && NodeStep(shares, UpdateFailed(n, t)).value[e] == shares[e]
              && NodeStep(shares, ForwardDone(n, t)).value[e] == shares[e]
  {
    if t in shares { TwoMore(shares[t]); }
    if n in shares { TwoMore(shares[n]); }
  }

  lemma TwoMore(share: real)
    requires share >= 0.0
    ensures Limit(share + 0.5) == Limit(share) + 2
  {
    assert (share + 0.5) * 4.0 == share * 4.0 + 2.0;
  }

  /** Every running node is healthy and no message carries a negative share. */
  ghost predicate Good(w: World) {
    && (forall n :: n in w.nodes ==> Healthy(w.nodes[n], n))
    && (forall m :: m in w.sent ==> NonNegativeReport(m.report))
  }

  /** `w'` knows every node and member that `w` knows. */
  ghost predicate Keeps(w: World, w': World) {
    w.nodes.Keys <= w'.nodes.Keys && forall n :: n in w.nodes ==> w.nodes[n].Keys <= w'.nodes[n].Keys
  }

  /** A forward to itself that fails is what zeroes a node's own share. */
  predicate FailsToReachItself(e: Event) {
    e.ForwardFailed? && e.target == e.n
  }

  lemma {:induction false} InsertKeeps(shares: Shares, self: Endpoint, report: Report)
    requires Healthy(shares, self) && NonNegativeReport(report)
    ensures Healthy(InsertAll(shares, report), self) && shares.Keys <= InsertAll(shares, report).Keys
  {
    if report != [] {
      InsertKeeps(shares, self, report[..|report| - 1]);
      assert report[|report| - 1].1 >= 0.0;
    }
  }

  lemma NodeStepKeeps(shares: Shares, e: Event)
    requires !e.Start? && !e.Send? && Healthy(shares, e.n) && !FailsToReachItself(e)
    requires (e.Signin? || e.Meet? || e.Gossip?) ==> NonNegativeReport(e.m.report)
    requires e.UpdateFailed? ==> e.peer != e.n
    ensures var r := NodeStep(shares, e); r.Some? && Healthy(r.value, e.n) && shares.Keys <= r.value.Keys
  {
    hide Updated, InsertAll, NonNegativeReport;
    match e {
      case Signin(n, m) => InsertKeeps(shares, n, m.report);
      case Meet(n, m) => UpdateKeeps(if m.src in shares then shares else shares[m.src := 1.0], n, m.src, m.report);
      case Gossip(n, m) => UpdateKeeps(shares, n, m.src, m.report);
      case _ =>
    }
  }

  /** Every possible step of a good cluster is defined, keeps it good and forgets nobody, unless a
      node fails to reach itself. */
  lemma StepKeeps(w: World, e: Event)
    requires Good(w) && Enabled(w, e) && !FailsToReachItself(e)
    ensures Step(w, e).Some? && Good(Step(w, e).value) && Keeps(w, Step(w, e).value)
  {
    hide NonNegativeReport, Healthy, NodeStep;
    match e {
      case Start(n) => StartIsHealthy(n);
      case Send(m) => if m.src in w.nodes { OwnReport(w.nodes[m.src], m.src, m.report); }
      case _ => NodeStepKeeps(w.nodes[e.n], e);
    }
  }

  lemma OwnReport(shares: Shares, self: Endpoint, report: Report)
    requires Healthy(shares, self)
    requires forall i :: 0 <= i < |report| ==> report[i].0 in shares && report[i].1 == shares[report[i].0]
    ensures NonNegativeReport(report)
  {
  }

  lemma StartIsHealthy(n: Endpoint)
    ensures NodeStep(map[], Start(n)) == Some(map[n := 1.0]) && Healthy(map[n := 1.0], n)
  {
  }

  /** The world after a run, `None` once an update has divided by zero. */
  function Run(events: seq<Event>): Option<World> {
    if events == [] then Some(World(map[], {}))
    else match Run(events[..|events| - 1]) case None => None case Some(w) => Step(w, events[|events| - 1])
  }

  /** Each event was possible when it happened. */
  ghost predicate Possible(events: seq<Event>) {
    events != [] ==>
      && Possible(events[..|events| - 1])
      && match Run(events[..|events| - 1]) case None => true case Some(w) => Enabled(w, events[|events| - 1])
  }

  lemma {:induction false} KeepsIsTransitive(a: World, b: World, c: World)
    requires Keeps(a, b) && Keeps(b, c)
    ensures Keeps(a, c)
  {
  }

  /** Over every run in which no node fails to reach itself: shares stay non-negative, each node's
      own share stays positive, no update divides by zero, and no member is ever dropped. */
  lemma {:induction false} GossipIsSafe(events: seq<Event>, n: nat)
    requires Possible(events) && n <= |events|
    requires forall i :: 0 <= i < |events| ==> !FailsToReachItself(events[i])
    ensures Run(events).Some? && Good(Run(events).value)
    ensures Run(events[..n]).Some? && Keeps(Run(events[..n]).value, Run(events).value)
  {
    hide Good, Keeps, Step, Enabled;
    if events == [] {
      EmptyWorld();
      assert events[..n] == [];
    } else {
      var k := |events| - 1;
      var front := events[..k];
      if n <= k {
        GossipIsSafe(front, n);
        assert front[..n] == events[..n];
        StepKeeps(Run(front).value, events[k]);
        KeepsIsTransitive(Run(events[..n]).value, Run(front).value, Run(events).value);
      } else {
        GossipIsSafe(front, k);
        assert events[..n] == events;
        StepKeeps(Run(front).value, events[k]);
        KeepsItself(Run(events).value);
      }
    }
  }

  lemma EmptyWorld()
    ensures Good(World(map[], {})) && Keeps(World(map[], {}), World(map[], {}))
  {
  }

  lemma KeepsItself(w: World)
    ensures Keeps(w, w)
  {
  }

  lemma RunPush(events: seq<Event>, e: Event)
    ensures Run(events + [e]) == match Run(events) case None => None case Some(w) => Step(w, e)
  {
    assert (events + [e])[..|events|] == events;
  }

  /** The condition is needed: a node that could reach neither itself nor a peer divides by zero on
      that peer's next report. */
  lemma UnreachableSelfDividesByZero(a: Endpoint, b: Endpoint)
    requires a != b
    ensures var hello := Message(b, a, [(a, 1.0)]);
            Run([] + [Start(a)] + [Send(hello)] + [UpdateFailed(a, b)] + [ForwardFailed(a, a)] + [Gossip(a, hello)]).None?
  {
    hide Run, Updated;
    var hello := Message(b, a, [(a, 1.0)]);
    var events := [] + [Start(a)] + [Send(hello)] + [UpdateFailed(a, b)];
    assert Run([]) == Some(World(map[], {})) by { NoEvents(); }
    RunPush([], Start(a));
    RunPush([] + [Start(a)], Send(hello));
    RunPush([] + [Start(a)] + [Send(hello)], UpdateFailed(a, b));
    RunPush(events, ForwardFailed(a, a));
    RunPush(events + [ForwardFailed(a, a)], Gossip(a, hello));
    var shares := map[a := 1.0][b := 0.0][a := 0.0];
    assert TouchedAt(shares, hello.report, 0);
    DividesByZeroExactly(shares, a, b, hello.report);
  }

  lemma NoEvents()
    ensures Run([]) == Some(World(map[], {}))
  {
  }
}
