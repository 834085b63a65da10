/**
 A whole network of gossip nodes: any topology, any schedule of deliveries and
 losses.  Every broadcast dies out, and the number of copies it can cause is bounded.
 */
module GossipNetwork {
  import opened Bytes
  import opened Collections
  import opened Gossip
  import opened GossipNode

  /** A node: what it remembers and has handled, the time of its last operation, and its configuration. */
  datatype Peer = Peer(node: NodeState, clock: Clock, neighbours: seq<Hash>, fanout: nat, capacity: nat)

  /** A copy of a message on its way to a node. */
  datatype Copy = Copy(to: Hash, m: Message)

  datatype Network = Network(peers: map<Hash, Peer>, flight: seq<Copy>)

  datatype Action =
    | Broadcast(node: Hash, m: Message, now: Clock, chosen: seq<Hash>)
    | Arrive(position: nat, now: Clock, chosen: seq<Hash>)
    | Lose(position: nat)
    | Direct(to: Hash, m: Message)
    | Clean(node: Hash, now: Clock)
    | Rewire(node: Hash, neighbours: seq<Hash>)

  /** For broadcasts and arrivals, `chosen` stands for the random choice of the acting node. */
  ghost predicate Enabled(s: Network, a: Action) {
    match a
    case Broadcast(node, m, now, chosen) =>
      node in s.peers && Picked(s.peers[node].neighbours, s.peers[node].fanout, chosen)
    case Arrive(i, now, chosen) =>
      && i < |s.flight| && s.flight[i].to in s.peers
      && Picked(s.peers[s.flight[i].to].neighbours, s.peers[s.flight[i].to].fanout, chosen)
    case Lose(i) => i < |s.flight|
    case Direct(_, _) => true
    case Clean(node, now) => node in s.peers
    case Rewire(node, _) => node in s.peers
  }

  function Copies(m: Message, to: seq<Hash>): (r: seq<Copy>)
    ensures |r| == |to| && forall i :: 0 <= i < |to| ==> r[i] == Copy(to[i], m)
  {
    seq(|to|, i requires 0 <= i < |to| => Copy(to[i], m))
  }

  function Without(flight: seq<Copy>, i: nat): seq<Copy>
    requires i < |flight|
  {
    flight[..i] + flight[i + 1..]
  }

  /** The arriving copy is handled and forwarded. */
  ghost predicate Accepts(s: Network, a: Action)
    requires Enabled(s, a)
  {
    a.Arrive? && ShouldPropagate(s.peers[s.flight[a.position].to].node.seen, s.flight[a.position].m, a.now)
  }

  /** The copies an action puts on the wire. */
  ghost function Sent(s: Network, a: Action): seq<Copy>
    requires Enabled(s, a)
  {
    match a
    case Broadcast(_, m, _, chosen) => Copies(m, chosen)
    case Arrive(i, now, chosen) =>
      var m := s.flight[i].m;
      if Accepts(s, a) then Copies(m.(hops := m.hops + 1), chosen) else []
    case Direct(to, m) => [Copy(to, m)]
    case Lose(_) => []
    case Clean(_, _) => []
    case Rewire(_, _) => []
  }

  /** A node performs an operation of its own. */
  function Perform(p: Peer, op: Op): Peer {
    p.(node := Apply(p.node, p.capacity, op), clock := op.now)
  }

  ghost function Step(s: Network, a: Action): Network
    requires Enabled(s, a)
  {
    match a
    case Broadcast(node, m, now, chosen) =>
      Network(s.peers[node := Perform(s.peers[node], BroadcastOp(m, now))], s.flight + Sent(s, a))
    case Arrive(i, now, chosen) =>
      var node, m := s.flight[i].to, s.flight[i].m;
      Network(s.peers[node := Perform(s.peers[node], ReceiveOp(m, now))], Without(s.flight, i) + Sent(s, a))
    case Lose(i) => s.(flight := Without(s.flight, i))
    case Direct(to, m) => s.(flight := s.flight + Sent(s, a))
    case Clean(node, now) => s.(peers := s.peers[node := Perform(s.peers[node], CleanOp(now))])
    case Rewire(node, neighbours) =>
      s.(peers := s.peers[node := s.peers[node].(neighbours := neighbours)])
  }

  // --------------------------------------------------------- the potential

  function Pow(f: nat, n: nat): nat {
    if n == 0 then 1 else f * Pow(f, n - 1)
  }

  /** f + f^2 + ... + f^n. */
  function Geometric(f: nat, n: nat): nat {
    if n == 0 then 0 else Geometric(f, n - 1) + Pow(f, n)
  }

  lemma {:induction false} GeometricShift(f: nat, n: nat)
    ensures Geometric(f, n + 1) == f + f * Geometric(f, n)
  {
    if n != 0 {
      GeometricShift(f, n - 1);
      assert f * (Geometric(f, n - 1) + Pow(f, n)) == f * Geometric(f, n - 1) + f * Pow(f, n);
    }
  }

  /** The most sends a copy that has made `hops` hops can still cause. */
  function Future(f: nat, hops: byte): nat {
    if hops >= MAX_HOPS then 0 else Geometric(f, MAX_HOPS - hops)
  }

  lemma {:induction false} GeometricGrows(f: nat, m: nat, n: nat)
    requires m <= n
    ensures Geometric(f, m) <= Geometric(f, n)
  {
    if m < n { GeometricGrows(f, m, n - 1); }
  }

  /** What all copies of message `id` can still cause, counting `extra` for each copy itself. */
  function Potential(f: nat, flight: seq<Copy>, id: Hash, extra: nat): nat {
    if flight == [] then 0
    else Weight(f, flight[0], id, extra) + Potential(f, flight[1..], id, extra)
  }

  function Weight(f: nat, c: Copy, id: Hash, extra: nat): nat {
    if c.m.id == id then extra + Future(f, c.m.hops) else 0
  }

  lemma {:induction false} PotentialAdds(f: nat, a: seq<Copy>, b: seq<Copy>, id: Hash, extra: nat)
    ensures Potential(f, a + b, id, extra) == Potential(f, a, id, extra) + Potential(f, b, id, extra)
  {
    if a == [] {
      assert a + b == b;
    } else {
      assert (a + b)[1..] == a[1..] + b;
      PotentialAdds(f, a[1..], b, id, extra);
    }
  }

  lemma PotentialWithout(f: nat, flight: seq<Copy>, i: nat, id: Hash, extra: nat)
    requires i < |flight|
    ensures Potential(f, flight, id, extra)
         == Potential(f, Without(flight, i), id, extra) + Weight(f, flight[i], id, extra)
  {
    var rest := flight[i..];
    assert flight == flight[..i] + rest && rest[1..] == flight[i + 1..];
    PotentialAdds(f, flight[..i], rest, id, extra);
    PotentialAdds(f, flight[..i], flight[i + 1..], id, extra);
  }

  /** `k` copies of one message weigh `k` times as much as one. */
  lemma {:induction false} PotentialOfCopies(f: nat, m: Message, to: seq<Hash>, id: Hash, extra: nat)
    ensures Potential(f, Copies(m, to), id, extra) == if m.id == id then |to| * (extra + Future(f, m.hops)) else 0
  {
    hide Future;
    if to != [] {
      assert Copies(m, to)[1..] == Copies(m, to[1..]);
      PotentialOfCopies(f, m, to[1..], id, extra);
      var w := extra + Future(f, m.hops);
      assert |to| * w == w + |to[1..]| * w;
    }
  }

  /** All fanouts are at most `f`. */
  ghost predicate Bounded(s: Network, f: nat) {
    forall n :: n in s.peers ==> s.peers[n].fanout <= f
  }

  lemma MulMonotone(a: nat, b: nat, c: nat)
    requires a <= b
    ensures a * c <= b * c
  {
  }

  /** Forwarding one copy makes up to `f` copies that together weigh no more than the copy's future. */
  lemma ForwardWeighs(f: nat, m: Message, to: seq<Hash>, id: Hash)
    requires |to| <= f && m.hops < MAX_HOPS && m.id == id
    ensures Potential(f, Copies(m.(hops := m.hops + 1), to), id, 1) <= Future(f, m.hops)
  {
    PotentialOfCopies(f, m.(hops := m.hops + 1), to, id, 1);
    GeometricShift(f, MAX_HOPS - m.hops - 1);
    MulMonotone(|to|, f, 1 + Future(f, m.hops + 1));
    assert f * (1 + Future(f, m.hops + 1)) == f + f * Future(f, m.hops + 1);
  }

  /** A copy's arrival strictly lowers the potential of its message; its loss does too. */
  lemma ArrivalLowers(s: Network, a: Action, f: nat)
    requires Bounded(s, f) && Enabled(s, a) && (a.Arrive? || a.Lose?)
    ensures var id := s.flight[a.position].m.id;
            Potential(f, Step(s, a).flight, id, 1) < Potential(f, s.flight, id, 1)
  {
    hide Future, Perform, Accepts;
    var id := s.flight[a.position].m.id;
    PotentialWithout(f, s.flight, a.position, id, 1);
    if a.Arrive? {
      PotentialAdds(f, Without(s.flight, a.position), Sent(s, a), id, 1);
      ForwardPays(s, a, f, id);
    }
  }

  // ------------------------------------------------------------ whole runs

  ghost predicate Reaches(s: Network, schedule: seq<Action>, t: Network)
    decreases |schedule|
  {
    if schedule == [] then s == t
    else Enabled(s, schedule[0]) && Reaches(Step(s, schedule[0]), schedule[1..], t)
  }

  function CountId(copies: seq<Copy>, id: Hash): nat {
    if copies == [] then 0 else (if copies[0].m.id == id then 1 else 0) + CountId(copies[1..], id)
  }

  /** All copies of `id` put on the wire in a run. */
  ghost function TotalSent(s: Network, schedule: seq<Action>, t: Network, id: Hash): nat
    requires Reaches(s, schedule, t)
    decreases |schedule|
  {
    if schedule == [] then 0
    else CountId(Sent(s, schedule[0]), id) + TotalSent(Step(s, schedule[0]), schedule[1..], t, id)
  }

  /** How many times `id` is broadcast in a run. */
  function Broadcasts(schedule: seq<Action>, id: Hash): nat {
    if schedule == [] then 0
    else (if schedule[0].Broadcast? && schedule[0].m.id == id then 1 else 0) + Broadcasts(schedule[1..], id)
  }

  /** The count is the potential's surplus: every copy weighs one more in the potential that counts copies. */
  lemma {:induction false} CountIsSurplus(f: nat, copies: seq<Copy>, id: Hash)
    ensures Potential(f, copies, id, 1) == CountId(copies, id) + Potential(f, copies, id, 0)
  {
    if copies != [] { CountIsSurplus(f, copies[1..], id); }
  }

  /** How many times `id` is sent directly, past the gossip, in a run. */
  function Directs(schedule: seq<Action>, id: Hash): nat {
    if schedule == [] then 0
    else (if schedule[0].Direct? && schedule[0].m.id == id then 1 else 0) + Directs(schedule[1..], id)
  }

  /** f + f^2 + ... + f^11: the bound for one broadcast. */
  function Bound(f: nat): nat {
    Geometric(f, MAX_HOPS + 1)
  }

  /** 1 + f + ... + f^10: the bound for one direct message. */
  function DirectBound(f: nat): nat {
    1 + Geometric(f, MAX_HOPS)
  }

  /** What an action may cost. */
  function Price(f: nat, a: Action, id: Hash): nat {
    if a.Broadcast? && a.m.id == id then Bound(f)
    else if a.Direct? && a.m.id == id then DirectBound(f)
    else 0
  }

  /** One step: what is sent, and what it may still cause, is paid for by the potential or by a broadcast. */
  lemma StepPays(s: Network, a: Action, f: nat, id: Hash)
    requires Bounded(s, f) && Enabled(s, a)
    ensures CountId(Sent(s, a), id) + Potential(f, Step(s, a).flight, id, 0)
         <= Potential(f, s.flight, id, 0) + Price(f, a, id)
    ensures Bounded(Step(s, a), f)
  {
    hide Bound, DirectBound, Potential;
    match a
    case Broadcast(_, _, _, _) => BroadcastPays(s, a, f, id);
    case Arrive(_, _, _) => ArrivalPays(s, a, f, id);
    case Direct(_, _) => DirectPays(s, a, f, id);
    case Lose(i) => PotentialWithout(f, s.flight, i, id, 0);
    case Clean(_, _) =>
    case Rewire(_, _) =>
  }

  lemma DirectPays(s: Network, a: Action, f: nat, id: Hash)
    requires a.Direct?
    ensures CountId(Sent(s, a), id) + Potential(f, Step(s, a).flight, id, 0)
         <= Potential(f, s.flight, id, 0) + (if a.m.id == id then DirectBound(f) else 0)
  {
    hide Geometric;
    var sent := Copies(a.m, [a.to]);
    assert Sent(s, a) == sent;
    PotentialAdds(f, s.flight, sent, id, 0);
    CountIsSurplus(f, sent, id);
    PotentialOfCopies(f, a.m, [a.to], id, 1);
    GeometricNone(f);
    GeometricGrows(f, if a.m.hops >= MAX_HOPS then 0 else MAX_HOPS - a.m.hops, MAX_HOPS);
    GeometricGrows(f, 0, MAX_HOPS);
  }

  lemma BroadcastPays(s: Network, a: Action, f: nat, id: Hash)
    requires Bounded(s, f) && Enabled(s, a) && a.Broadcast?
    ensures CountId(Sent(s, a), id) + Potential(f, Step(s, a).flight, id, 0)
         <= Potential(f, s.flight, id, 0) + (if a.m.id == id then Bound(f) else 0)
  {
    hide Bound, Future;
    var sent := Copies(a.m, a.chosen);
    PotentialAdds(f, s.flight, sent, id, 0);
    CountIsSurplus(f, sent, id);
    PotentialOfCopies(f, a.m, a.chosen, id, 1);
    if a.m.id == id { BroadcastWeighs(f, |a.chosen|, a.m.hops); }
  }

  lemma BroadcastWeighs(f: nat, k: nat, hops: byte)
    requires k <= f
    ensures k * (1 + Future(f, hops)) <= Bound(f)
  {
    hide Geometric;
    GeometricShift(f, MAX_HOPS);
    GeometricGrows(f, 0, MAX_HOPS);
    GeometricGrows(f, if hops >= MAX_HOPS then 0 else MAX_HOPS - hops, MAX_HOPS);
    GeometricNone(f);
    var w := 1 + Future(f, hops);
    MulMonotone(k, f, w);
    MulMonotone(w, 1 + Geometric(f, MAX_HOPS), f);
  }

  lemma GeometricNone(f: nat)
    ensures Geometric(f, 0) == 0
  {
  }

  /** The copies sent for an arriving one cost no more than it could still cause. */
  lemma ForwardPays(s: Network, a: Action, f: nat, id: Hash)
    requires Bounded(s, f) && Enabled(s, a) && a.Arrive?
    ensures Potential(f, Sent(s, a), id, 1) <= Weight(f, s.flight[a.position], id, 0)
  {
    hide Future, Geometric;
    var c := s.flight[a.position];
    if Accepts(s, a) {
      if c.m.id == id {
        ForwardWeighs(f, c.m, a.chosen, id);
      } else {
        PotentialOfCopies(f, c.m.(hops := c.m.hops + 1), a.chosen, id, 1);
      }
    }
  }

  lemma ArrivalPays(s: Network, a: Action, f: nat, id: Hash)
    requires Bounded(s, f) && Enabled(s, a) && a.Arrive?
    ensures CountId(Sent(s, a), id) + Potential(f, Step(s, a).flight, id, 0) <= Potential(f, s.flight, id, 0)
  {
    hide Potential, Weight, Sent, Perform, Accepts, CountId, Bounded;
    PotentialWithout(f, s.flight, a.position, id, 0);
    PotentialAdds(f, Without(s.flight, a.position), Sent(s, a), id, 0);
    CountIsSurplus(f, Sent(s, a), id);
    ForwardPays(s, a, f, id);
  }

  lemma {:induction false} RunPays(s: Network, schedule: seq<Action>, t: Network, f: nat, id: Hash)
    requires Bounded(s, f) && Reaches(s, schedule, t)
    ensures TotalSent(s, schedule, t, id) + Potential(f, t.flight, id, 0)
         <= Potential(f, s.flight, id, 0) + Broadcasts(schedule, id) * Bound(f) + Directs(schedule, id) * DirectBound(f)
    decreases |schedule|
  {
    hide Bound, DirectBound, Potential, Sent, Step;
    if schedule != [] {
      StepPays(s, schedule[0], f, id);
      RunPays(Step(s, schedule[0]), schedule[1..], t, f, id);
      var rest, directs := Broadcasts(schedule[1..], id), Directs(schedule[1..], id);
      assert (1 + rest) * Bound(f) == Bound(f) + rest * Bound(f);
      assert (1 + directs) * DirectBound(f) == DirectBound(f) + directs * DirectBound(f);
    }
  }

  /**
   Gossip always dies out: with fanouts of at most `f`, a message broadcast once
   causes at most f + f^2 + ... + f^11 sends, on any topology and schedule.
   */
  lemma BroadcastDiesOut(s: Network, schedule: seq<Action>, t: Network, f: nat, id: Hash)
    requires Bounded(s, f) && Reaches(s, schedule, t)
    requires CountId(s.flight, id) == 0 && Broadcasts(schedule, id) <= 1 && Directs(schedule, id) == 0
    ensures TotalSent(s, schedule, t, id) <= Geometric(f, 11)
    ensures Arrivals(s, schedule, t, id) + CountId(t.flight, id) == TotalSent(s, schedule, t, id)
  {
    RunPays(s, schedule, t, f, id);
    NothingInFlight(f, s.flight, id);
    CopiesConserved(s, schedule, t, id);
    MulMonotone(Broadcasts(schedule, id), 1, Bound(f));
  }

  lemma {:induction false} NothingInFlight(f: nat, flight: seq<Copy>, id: Hash)
    requires CountId(flight, id) == 0
    ensures Potential(f, flight, id, 0) == 0
  {
    if flight != [] { NothingInFlight(f, flight[1..], id); }
  }

  /** Arrivals and losses of copies of `id` in a run. */
  ghost function Arrivals(s: Network, schedule: seq<Action>, t: Network, id: Hash): nat
    requires Reaches(s, schedule, t)
    decreases |schedule|
  {
    if schedule == [] then 0
    else Ended(s, schedule[0], id) + Arrivals(Step(s, schedule[0]), schedule[1..], t, id)
  }

  ghost function Ended(s: Network, a: Action, id: Hash): nat
    requires Enabled(s, a)
  {
    if (a.Arrive? || a.Lose?) && s.flight[a.position].m.id == id then 1 else 0
  }

  /** Conservation: every copy sent has arrived, was lost, or is still in flight. */
  lemma {:induction false} CopiesConserved(s: Network, schedule: seq<Action>, t: Network, id: Hash)
    requires Reaches(s, schedule, t)
    ensures CountId(s.flight, id) + TotalSent(s, schedule, t, id)
         == Arrivals(s, schedule, t, id) + CountId(t.flight, id)
    decreases |schedule|
  {
    hide Step, Sent, Ended;
    if schedule != [] {
      StepConserves(s, schedule[0], id);
      CopiesConserved(Step(s, schedule[0]), schedule[1..], t, id);
    }
  }

  lemma StepConserves(s: Network, a: Action, id: Hash)
    requires Enabled(s, a)
    ensures CountId(s.flight, id) + CountId(Sent(s, a), id) == Ended(s, a, id) + CountId(Step(s, a).flight, id)
  {
    hide Potential;
    var sent := Sent(s, a);
    CountAsPotential(s.flight, id);
    CountAsPotential(sent, id);
    CountAsPotential(Step(s, a).flight, id);
    match a
    case Broadcast(_, _, _, _) =>
      PotentialAdds(0, s.flight, sent, id, 1);
    case Direct(_, _) =>
      PotentialAdds(0, s.flight, sent, id, 1);
    case Arrive(i, _, _) =>
      PotentialWithout(0, s.flight, i, id, 1);
      PotentialAdds(0, Without(s.flight, i), sent, id, 1);
      FutureOfZero(s.flight[i].m.hops);
    case Lose(i) =>
      PotentialWithout(0, s.flight, i, id, 1);
      FutureOfZero(s.flight[i].m.hops);
    case Clean(_, _) =>
    case Rewire(_, _) =>
  }

  lemma FutureOfZero(hops: byte)
    ensures Future(0, hops) == 0
  {
    if hops < MAX_HOPS { GeometricOfZero(MAX_HOPS - hops); }
  }

  lemma {:induction false} GeometricOfZero(n: nat)
    ensures Geometric(0, n) == 0
  {
    if n != 0 { GeometricOfZero(n - 1); }
  }

  /** With fanout zero the potential is just the number of copies. */
  lemma {:induction false} CountAsPotential(copies: seq<Copy>, id: Hash)
    ensures Potential(0, copies, id, 1) == CountId(copies, id)
  {
    if copies != [] {
      FutureOfZero(copies[0].m.hops);
      CountAsPotential(copies[1..], id);
    }
  }

  // -------------------------------------------- every node forwards only once

  /** The clock of the acting node does not go back, and it evicts no young entry. */
  predicate SteadyAt(p: Peer, now: Clock, marks: bool) {
    p.clock <= now && (marks ==> KeepsYoung(p.node.seen, p.capacity, now))
  }

  ghost predicate Steady(s: Network, a: Action)
    requires Enabled(s, a)
  {
    match a
    case Broadcast(node, _, now, _) => SteadyAt(s.peers[node], now, true)
    case Arrive(i, now, _) => SteadyAt(s.peers[s.flight[i].to], now, true)
    case Clean(node, now) => SteadyAt(s.peers[node], now, false)
    case _ => true
  }

  ghost predicate SteadyRun(s: Network, schedule: seq<Action>, t: Network)
    requires Reaches(s, schedule, t)
    decreases |schedule|
  {
    schedule == [] || (Steady(s, schedule[0]) && SteadyRun(Step(s, schedule[0]), schedule[1..], t))
  }

  /** The actions of a run that put `id` into the network all carry the same timestamp. */
  predicate OneStamp(schedule: seq<Action>, id: Hash, stamp: u64) {
    forall i :: 0 <= i < |schedule| ==> StampAt(schedule[i], id, stamp)
  }

  predicate StampAt(a: Action, id: Hash, stamp: u64) {
    (a.Broadcast? || a.Direct?) && a.m.id == id ==> a.m.timestamp == stamp
  }

  /** Every node is in order, and all copies and handlings of `id` carry the timestamp. */
  ghost predicate NetOk(s: Network, id: Hash, stamp: u64) {
    && NodesOk(s.peers, id, stamp)
    && (forall i :: 0 <= i < |s.flight| && s.flight[i].m.id == id ==> s.flight[i].m.timestamp == stamp)
  }

  ghost predicate NodesOk(peers: map<Hash, Peer>, id: Hash, stamp: u64) {
    forall n :: n in peers ==> Inv(peers[n].node, peers[n].clock) && StampedHere(peers[n].node, id, stamp)
  }

  predicate StampedHere(p: NodeState, id: Hash, stamp: u64) {
    forall i :: 0 <= i < |p.handled| && p.handled[i].id == id ==> p.handled[i].timestamp == stamp
  }

  predicate HandledHere(p: NodeState, id: Hash) {
    exists i :: 0 <= i < |p.handled| && p.handled[i].id == id
  }

  /** The nodes that have handled `id`. */
  function Served(s: Network, id: Hash): set<Hash> {
    ServedIn(s.peers, id)
  }

  function ServedIn(peers: map<Hash, Peer>, id: Hash): set<Hash> {
    set n | n in peers && HandledHere(peers[n].node, id)
  }

  ghost predicate PerformFacts(p: Peer, op: Op, id: Hash, stamp: u64) {
    var q := Perform(p, op);
    && Inv(q.node, q.clock) && StampedHere(q.node, id, stamp)
    && (HandledHere(q.node, id) <==> HandledHere(p.node, id) || Takes(p, op, id))
    && (Takes(p, op, id) ==> !HandledHere(p.node, id))
  }

  /** A node's own operation keeps it in order; it handles `id` only if it had not before, and forgets no handling. */
  lemma PerformOk(p: Peer, op: Op, id: Hash, stamp: u64)
    requires Inv(p.node, p.clock) && SteadyAt(p, op.now, !op.CleanOp?) && StampedHere(p.node, id, stamp)
    requires op.ReceiveOp? && op.m.id == id ==> op.m.timestamp == stamp
    ensures PerformFacts(p, op, id, stamp)
  {
    hide Inv;
    ApplyInv(p.node, p.capacity, op, p.clock);
    var q := Perform(p, op);
    assert Prefix(p.node.handled, q.node.handled);
    if Takes(p, op, id) {
      assert q.node.handled[|p.node.handled|].id == id;
      NotYet(p, op, id, stamp);
    }
  }

  predicate Prefix(a: seq<Handled>, b: seq<Handled>) {
    |a| <= |b| && forall i :: 0 <= i < |a| ==> b[i] == a[i]
  }

  predicate Takes(p: Peer, op: Op, id: Hash) {
    op.ReceiveOp? && op.m.id == id && ShouldPropagate(p.node.seen, op.m, op.now)
  }

  lemma NotYet(p: Peer, op: Op, id: Hash, stamp: u64)
    requires Inv(p.node, p.clock) && p.clock <= op.now && StampedHere(p.node, id, stamp)
    requires Takes(p, op, id) && op.m.timestamp == stamp
    ensures !HandledHere(p.node, id)
  {
    if i :| 0 <= i < |p.node.handled| && p.node.handled[i].id == id {
      NotAgain(p.node, p.node.handled[i], op.m, p.clock, op.now);
    }
  }

  /** Whoever accepts a copy of `id` had not handled it before, and nobody else's record changes. */
  lemma StepServes(s: Network, a: Action, id: Hash, stamp: u64)
    requires Enabled(s, a) && Steady(s, a) && NetOk(s, id, stamp) && StampAt(a, id, stamp)
    ensures NetOk(Step(s, a), id, stamp) && Step(s, a).peers.Keys == s.peers.Keys
    ensures if Accepts(s, a) && s.flight[a.position].m.id == id
            then s.flight[a.position].to !in Served(s, id)
                 && Served(Step(s, a), id) == Served(s, id) + {s.flight[a.position].to}
            else Served(Step(s, a), id) == Served(s, id)
  {
    hide Inv, Perform, ShouldPropagate, HandledHere, StampedHere, SteadyAt, PerformFacts;
    match a
    case Broadcast(node, m, now, _) =>
      PerformOk(s.peers[node], BroadcastOp(m, now), id, stamp);
      NodeServes(s, node, BroadcastOp(m, now), id, stamp);
    case Arrive(i, now, _) =>
      var node, op := s.flight[i].to, ReceiveOp(s.flight[i].m, now);
      PerformOk(s.peers[node], op, id, stamp);
      NodeServes(s, node, op, id, stamp);
    case Clean(node, now) =>
      PerformOk(s.peers[node], CleanOp(now), id, stamp);
      NodeServes(s, node, CleanOp(now), id, stamp);
    case _ =>
  }

  /** How the operation of one node shows in the network. */
  lemma NodeServes(s: Network, node: Hash, op: Op, id: Hash, stamp: u64)
    requires node in s.peers && PerformFacts(s.peers[node], op, id, stamp) && NodesOk(s.peers, id, stamp)
    ensures var peers := s.peers[node := Perform(s.peers[node], op)];
            && NodesOk(peers, id, stamp) && peers.Keys == s.peers.Keys
            && (Takes(s.peers[node], op, id) ==> node !in ServedIn(s.peers, id))
            && ServedIn(peers, id) == ServedIn(s.peers, id) + if Takes(s.peers[node], op, id) then {node} else {}
  {
    hide Inv, Perform, HandledHere, StampedHere, Takes;
    var peers := s.peers[node := Perform(s.peers[node], op)];
    forall n
      ensures n in ServedIn(peers, id)
         <==> n in ServedIn(s.peers, id) || (n == node && Takes(s.peers[node], op, id))
    {
    }
  }

  lemma {:induction false} CountCopies(m: Message, to: seq<Hash>, id: Hash)
    ensures CountId(Copies(m, to), id) == if m.id == id then |to| else 0
  {
    if to != [] {
      assert Copies(m, to)[1..] == Copies(m, to[1..]);
      CountCopies(m, to[1..], id);
    }
  }

  /** What one action sends of `id`. */
  lemma StepSends(s: Network, a: Action, f: nat, id: Hash)
    requires Bounded(s, f) && Enabled(s, a)
    ensures Bounded(Step(s, a), f)
    ensures CountId(Sent(s, a), id)
         <= (if a.Broadcast? && a.m.id == id then f else 0) + (if a.Direct? && a.m.id == id then 1 else 0)
            + (if Accepts(s, a) && s.flight[a.position].m.id == id then f else 0)
  {
    hide Apply;
    match a
    case Broadcast(_, m, _, chosen) => CountCopies(m, chosen, id);
    case Arrive(i, _, chosen) =>
      if Accepts(s, a) { CountCopies(s.flight[i].m.(hops := s.flight[i].m.hops + 1), chosen, id); }
    case Direct(to, m) => assert [Copy(to, m)][1..] == [];
    case _ =>
  }

  lemma {:induction false} RunServes(s: Network, schedule: seq<Action>, t: Network, f: nat, id: Hash, stamp: u64)
    requires Bounded(s, f) && Reaches(s, schedule, t) && SteadyRun(s, schedule, t)
    requires NetOk(s, id, stamp) && OneStamp(schedule, id, stamp)
    ensures TotalSent(s, schedule, t, id) + f * |Served(s, id)|
         <= f * Broadcasts(schedule, id) + Directs(schedule, id) + f * |Served(t, id)|
    ensures NetOk(t, id, stamp) && t.peers.Keys == s.peers.Keys
    decreases |schedule|
  {
    hide Sent, Step, Accepts, NetOk, Steady, Served, Enabled;
    if schedule != [] {
      var a, rest := schedule[0], schedule[1..];
      assert StampAt(a, id, stamp);
      assert forall i :: 0 <= i < |rest| ==> rest[i] == schedule[i + 1];
      StepServes(s, a, id, stamp);
      StepSends(s, a, f, id);
      RunServes(Step(s, a), rest, t, f, id, stamp);
      var u, b := |Served(s, id)|, Broadcasts(rest, id);
      assert f * (u + 1) == f * u + f;
      assert f * (b + 1) == f * b + f;
    }
  }

  /** All nodes start empty. */
  ghost predicate Initial(s: Network) {
    s.flight == [] && forall n :: n in s.peers ==> s.peers[n].node == NodeState([], []) && s.peers[n].clock == 0
  }

  /**
   Every node forwards a message at most once: over any run from empty nodes whose
   clocks do not go back and whose caches evict no young entry, a message that is
   broadcast `b` times and sent directly `d` times with one timestamp causes at most
   f * (b + nodes) + d sends.
   */
  lemma ForwardedOnce(s: Network, schedule: seq<Action>, t: Network, f: nat, id: Hash, stamp: u64)
    requires Initial(s) && Bounded(s, f) && Reaches(s, schedule, t) && SteadyRun(s, schedule, t)
    requires OneStamp(schedule, id, stamp)
    ensures TotalSent(s, schedule, t, id) <= f * (Broadcasts(schedule, id) + |s.peers|) + Directs(schedule, id)
  {
    hide Bounded, Reaches, SteadyRun, TotalSent, OneStamp, HandledHere, Inv;
    EmptyInv();
    assert forall n :: n in s.peers ==> StampedHere(s.peers[n].node, id, stamp);
    RunServes(s, schedule, t, f, id, stamp);
    SubsetSize(Served(t, id), s.peers.Keys);
    assert |s.peers.Keys| == |s.peers|;
    MulMonotone(|Served(t, id)|, |s.peers|, f);
    assert f * (Broadcasts(schedule, id) + |s.peers|) == f * Broadcasts(schedule, id) + f * |s.peers|;
  }
}
