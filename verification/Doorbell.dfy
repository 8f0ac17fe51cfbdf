/** The four-rank doorbell all-reduce: on every rank a host thread and a GPU worker step
    through two exchange rounds per sequence, and each endpoint's remote writes land in
    order. Host, GPU and wire steps interleave freely. */
module Doorbell {

  const RANKS := 4

  /** The partner in a round: rank xor 1 in round 0, rank xor 3 in round 1. */
  function Peer(rank: nat, round: nat): (p: nat)
    requires rank < RANKS && round < 2
    ensures p < RANKS && p != rank
    ensures p == if round == 1 then 3 - rank else if rank % 2 == 0 then rank + 1 else rank - 1
  {
    (rank as bv2 ^ (if round == 0 then 1 else 3)) as nat
  }

  /** A remote write in flight. A payload is read from the send buffer when it lands; the
      eight-byte control writes are inlined and carry the value read when posted. */
  datatype Msg = Payload | Remote(value: nat) | Ack(value: nat)

  /** One endpoint's doorbell fields, buffers and outgoing writes. */
  datatype Endpoint<V> = Endpoint(
    command: nat, producer: nat, remote: nat, consumer: nat, ack: nat, observed: nat,
    send: V, recv: V, wire: seq<Msg>)

  /** Where a thread is: sequence number, exchange round, step within the round. */
  datatype Pos = Pos(sq: nat, round: nat, pc: nat)

  datatype Node<V> = Node(host: Pos, gpu: Pos, ep: seq<Endpoint<V>>, output: V)

  type State<V> = seq<Node<V>>

  /** The elementwise addition, each rank's input for each sequence, and the last sequence. */
  datatype Net<!V> = Net(add: (V, V) -> V, input: (nat, nat) -> V, final: nat)

  datatype Action = Host(rank: nat) | Gpu(rank: nat) | Deliver(rank: nat, round: nat)

  function Step(p: Pos): Pos { p.(pc := p.pc + 1) }

  function NextRound(p: Pos): Pos {
    if p.round == 0 then Pos(p.sq, 1, 0) else Pos(p.sq + 1, 0, 0)
  }

  ghost predicate PosOk<V>(net: Net<V>, p: Pos, last: nat) {
    && 1 <= p.sq <= net.final + 1 && p.round < 2 && p.pc <= last
    && (p.sq == net.final + 1 ==> p.round == p.pc == 0)
  }

  ghost predicate Shaped<V>(net: Net<V>, s: State<V>) {
    && |s| == RANKS
    && forall r | 0 <= r < RANKS :: |s[r].ep| == 2 && PosOk(net, s[r].host, 6) && PosOk(net, s[r].gpu, 5)
  }

  ghost predicate Initial<V>(net: Net<V>, s: State<V>) {
    && Shaped(net, s)
    && forall r | 0 <= r < RANKS ::
         && s[r].host == s[r].gpu == Pos(1, 0, 0)
         && forall e | 0 <= e < 2 ::
              && s[r].ep[e].command == s[r].ep[e].producer == s[r].ep[e].remote == 0
              && s[r].ep[e].consumer == s[r].ep[e].ack == s[r].ep[e].observed == 0
              && s[r].ep[e].wire == []
  }

  /** The host's step within one exchange: ring the command bell; await the producer; post
      payload, then sequence; await completion; await the consumer and post the
      acknowledgement; await completion; await the observer. */
  ghost predicate HostEnabled<V>(n: Node<V>)
    requires |n.ep| == 2 && n.host.round < 2
  {
    var e, q := n.ep[n.host.round], n.host.sq;
    match n.host.pc
    case 0 => true
    case 1 => e.producer >= q
    case 2 => true
    case 3 => e.wire == []
    case 4 => e.consumer >= q
    case 5 => e.wire == []
    case _ => e.observed >= q
  }

  ghost function HostStep<V>(n: Node<V>): Node<V>
    requires |n.ep| == 2 && n.host.round < 2
  {
    var d := n.host.round;
    var e, q := n.ep[d], n.host.sq;
    match n.host.pc
    case 0 => n.(host := Step(n.host), ep := n.ep[d := e.(command := q)])
    case 1 => n.(host := Step(n.host), ep := n.ep[d := e.(wire := e.wire + [Payload])])
    case 2 => n.(host := Step(n.host), ep := n.ep[d := e.(wire := e.wire + [Remote(e.producer)])])
    case 3 => n.(host := Step(n.host))
    case 4 => n.(host := Step(n.host), ep := n.ep[d := e.(wire := e.wire + [Ack(e.consumer)])])
    case 5 => n.(host := Step(n.host))
    case _ => n.(host := NextRound(n.host))
  }

  /** The GPU worker's step: await the command (and fill the first send buffer); publish the
      producer bell; await the remote bell; reduce; publish the consumer bell; await the
      acknowledgement and publish the observer bell. */
  ghost predicate GpuEnabled<V>(n: Node<V>)
    requires |n.ep| == 2 && n.gpu.round < 2
  {
    var e, q := n.ep[n.gpu.round], n.gpu.sq;
    match n.gpu.pc
    case 0 => e.command >= q
    case 2 => e.remote >= q
    case 5 => e.ack >= q
    case _ => true
  }

  ghost function GpuStep<V>(net: Net<V>, rank: nat, n: Node<V>): Node<V>
    requires |n.ep| == 2 && n.gpu.round < 2
  {
    var d := n.gpu.round;
    var e, q := n.ep[d], n.gpu.sq;
    match n.gpu.pc
    case 0 =>
      if d == 0 then n.(gpu := Step(n.gpu), ep := n.ep[0 := e.(send := net.input(rank, q))])
      else n.(gpu := Step(n.gpu))
    case 1 => n.(gpu := Step(n.gpu), ep := n.ep[d := e.(producer := q)])
    case 2 => n.(gpu := Step(n.gpu))
    case 3 =>
      var sum := net.add(e.send, e.recv);
      if d == 0 then n.(gpu := Step(n.gpu), ep := n.ep[1 := n.ep[1].(send := sum)])
      else n.(gpu := Step(n.gpu), output := sum)
    case 4 => n.(gpu := Step(n.gpu), ep := n.ep[d := e.(consumer := q)])
    case _ => n.(gpu := NextRound(n.gpu), ep := n.ep[d := e.(observed := q)])
  }

  /** The receiving endpoint once the sender's oldest write has landed. */
  function Land<V>(m: Msg, sender: Endpoint<V>, receiver: Endpoint<V>): Endpoint<V> {
    match m
    case Payload => receiver.(recv := sender.send)
    case Remote(v) => receiver.(remote := v)
    case Ack(v) => receiver.(ack := v)
  }

  ghost predicate Enabled<V>(net: Net<V>, s: State<V>, a: Action)
    requires Shaped(net, s)
  {
    match a
    case Host(r) => r < RANKS && s[r].host.sq <= net.final && HostEnabled(s[r])
    case Gpu(r) => r < RANKS && s[r].gpu.sq <= net.final && GpuEnabled(s[r])
    case Deliver(r, d) => r < RANKS && d < 2 && s[r].ep[d].wire != []
  }

  ghost function Apply<V>(net: Net<V>, s: State<V>, a: Action): (t: State<V>)
    requires Shaped(net, s) && Enabled(net, s, a)
    ensures Shaped(net, t)
  {
    match a
    case Host(r) => s[r := HostStep(s[r])]
    case Gpu(r) => s[r := GpuStep(net, r, s[r])]
    case Deliver(r, d) =>
      var p := Peer(r, d);
      var from, to := s[r].ep[d], s[p].ep[d];
      s[r := s[r].(ep := s[r].ep[d := from.(wire := from.wire[1..])])]
       [p := s[p].(ep := s[p].ep[d := Land(from.wire[0], from, to)])]
  }

  // ---- the invariant ----

  /** How many exchanges of round `d` have step `j` behind them. */
  function Done(p: Pos, d: nat, j: nat): int {
    if p.round > d || (p.round == d && p.pc > j) then p.sq else p.sq - 1
  }

  function Pair<V>(net: Net<V>, r: nat, q: nat): V
    requires r < RANKS
  {
    net.add(net.input(r, q), net.input(Peer(r, 0), q))
  }

  /** What rank r sends in round d of sequence q. */
  function Sent<V>(net: Net<V>, r: nat, d: nat, q: nat): V
    requires r < RANKS
  {
    if d == 0 then net.input(r, q) else Pair(net, r, q)
  }

  /** The four-way sum as rank r computes it. */
  function Total<V>(net: Net<V>, r: nat, q: nat): V
    requires r < RANKS
  {
    net.add(Pair(net, r, q), Pair(net, Peer(r, 1), q))
  }

  /** Whether a write is in flight (at most two ever are). */
  function Pending(wire: seq<Msg>, m: Msg): int {
    if wire != [] && (wire[0] == m || wire[|wire| - 1] == m) then 1 else 0
  }

  /** A node's own bells count what its threads have done, and its threads wait for each
      other in the order of the exchange. */
  ghost predicate Bells<V>(n: Node<V>, d: nat)
    requires d < 2 && |n.ep| == 2
  {
    var e, h, g := n.ep[d], n.host, n.gpu;
    && e.command == Done(h, d, 0) && e.producer == Done(g, d, 1)
    && e.consumer == Done(g, d, 4) && e.observed == Done(g, d, 5)
    && Done(g, d, 0) <= Done(h, d, 0) && Done(h, d, 1) <= Done(g, d, 1)
    && Done(h, d, 4) <= Done(g, d, 4) && Done(h, d, 6) <= Done(g, d, 5)
    && Done(g, d, 2) <= e.remote && Done(g, d, 5) <= e.ack
  }

  /** The last sequence whose contribution is in the send buffer of round `d`. */
  function Filled(g: Pos, d: nat): int {
    if d == 0 then Done(g, 0, 0) else Done(g, 0, 3)
  }

  /** A node's send buffers and output hold what its progress says. */
  ghost predicate Values<V>(net: Net<V>, r: nat, n: Node<V>)
    requires r < RANKS && |n.ep| == 2
  {
    && (Filled(n.gpu, 0) >= 1 ==> n.ep[0].send == Sent(net, r, 0, Filled(n.gpu, 0)))
    && (Filled(n.gpu, 1) >= 1 ==> n.ep[1].send == Sent(net, r, 1, Filled(n.gpu, 1)))
    && (Done(n.gpu, 1, 3) >= 1 ==> n.output == Total(net, r, Done(n.gpu, 1, 3)))
  }

  ghost predicate Local<V>(net: Net<V>, r: nat, n: Node<V>)
    requires r < RANKS && |n.ep| == 2
  {
    Bells(n, 0) && Bells(n, 1) && Values(net, r, n)
  }

  /** What can be in flight from an endpoint, given where its host is. */
  ghost predicate WireOk(h: Pos, d: nat, wire: seq<Msg>) {
    if h.round == d && h.pc == 2 then wire == [Payload] || wire == []
    else if h.round == d && h.pc == 3 then
      wire == [Payload, Remote(h.sq)] || wire == [Remote(h.sq)] || wire == []
    else if h.round == d && h.pc == 5 then wire == [Ack(h.sq)] || wire == []
    else wire == []
  }

  /** What the sender's host has posted is either in flight or has landed at the receiver. */
  ghost predicate Link<V>(net: Net<V>, r: nat, h: Pos, from: Endpoint<V>, to: Endpoint<V>, d: nat)
    requires r < RANKS
  {
    && WireOk(h, d, from.wire)
    && to.remote == Done(h, d, 2) - Pending(from.wire, Remote(h.sq))
    && to.ack == Done(h, d, 4) - Pending(from.wire, Ack(h.sq))
    && var landed := Done(h, d, 1) - Pending(from.wire, Payload);
       landed >= 1 ==> to.recv == Sent(net, r, d, landed)
  }

  ghost predicate Inv<V>(net: Net<V>, s: State<V>) {
    && Shaped(net, s)
    && (forall r | 0 <= r < RANKS :: Local(net, r, s[r]))
    && (forall r, d | 0 <= r < RANKS && 0 <= d < 2 :: LinkAt(net, s, r, d))
  }

  ghost predicate LinkAt<V>(net: Net<V>, s: State<V>, r: nat, d: nat)
    requires Shaped(net, s) && r < RANKS && d < 2
  {
    Link(net, r, s[r].host, s[r].ep[d], s[Peer(r, d)].ep[d], d)
  }

  /** The invariant at one pair of partners, both ways. */
  lemma InvAt<V>(net: Net<V>, s: State<V>, r: nat, d: nat)
    requires Inv(net, s) && r < RANKS && d < 2
    ensures
      var p := Peer(r, d);
      && Peer(p, d) == r
      && Local(net, r, s[r]) && Local(net, p, s[p])
      && LinkAt(net, s, r, d) && LinkAt(net, s, p, d)
  {
    var p := Peer(r, d);
    assert Peer(p, d) == r;
  }

  lemma InitialInv<V>(net: Net<V>, s: State<V>)
    requires Initial(net, s)
    ensures Inv(net, s)
  {
    forall r, d | 0 <= r < RANKS && 0 <= d < 2 ensures LinkAt(net, s, r, d) && Local(net, r, s[r]) {
      assert s[r].ep[d].wire == [] && s[Peer(r, d)].ep[d].remote == 0;
    }
  }

  // ---- host steps ----

  /** Moving from (h, wire) to (k, sent) leaves what has landed unchanged. */
  ghost predicate SameLanded(h: Pos, wire: seq<Msg>, k: Pos, sent: seq<Msg>, d: nat) {
    && WireOk(k, d, sent)
    && Done(h, d, 2) - Pending(wire, Remote(h.sq)) == Done(k, d, 2) - Pending(sent, Remote(k.sq))
    && Done(h, d, 4) - Pending(wire, Ack(h.sq)) == Done(k, d, 4) - Pending(sent, Ack(k.sq))
    && Done(h, d, 1) - Pending(wire, Payload) == Done(k, d, 1) - Pending(sent, Payload)
  }

  /** Posting adds to the host's count and to the wire alike. */
  lemma PostKeepsLanded(h: Pos, wire: seq<Msg>, d: nat)
    requires WireOk(h, d, wire) && h.round == d
    ensures h.pc == 1 ==> SameLanded(h, wire, Step(h), wire + [Payload], d)
    ensures h.pc == 2 ==> SameLanded(h, wire, Step(h), wire + [Remote(h.sq)], d)
    ensures h.pc == 4 ==> SameLanded(h, wire, Step(h), wire + [Ack(h.sq)], d)
  {
    if wire == [] {
      assert wire + [Payload] == [Payload] && wire + [Remote(h.sq)] == [Remote(h.sq)] &&
          wire + [Ack(h.sq)] == [Ack(h.sq)];
    } else if h.pc == 2 {
      assert wire + [Remote(h.sq)] == [Payload, Remote(h.sq)];
    }
  }

  /** The steps that post nothing. */
  lemma IdleKeepsLanded(h: Pos, wire: seq<Msg>, d: nat)
    requires WireOk(h, d, wire) && h.round < 2 && d < 2 && h.pc <= 6
    ensures h.round != d || h.pc == 0 ==> SameLanded(h, wire, Step(h), wire, d)
    ensures h.pc in {3, 5} && (h.round == d ==> wire == []) ==> SameLanded(h, wire, Step(h), wire, d)
    ensures h.pc == 6 ==> SameLanded(h, wire, NextRound(h), wire, d)
  {
  }

  ghost predicate NodeOk<V>(net: Net<V>, n: Node<V>) {
    |n.ep| == 2 && PosOk(net, n.host, 6) && PosOk(net, n.gpu, 5)
  }

  ghost predicate SameArrivals<V>(a: Endpoint<V>, b: Endpoint<V>) {
    a.remote == b.remote && a.ack == b.ack && a.recv == b.recv
  }

  lemma HostBells<V>(net: Net<V>, n: Node<V>, d: nat)
    requires d < 2 && NodeOk(net, n) && Bells(n, d) && HostEnabled(n)
    ensures Bells(HostStep(n), d)
    ensures HostStep(n).ep[d].send == n.ep[d].send && SameArrivals(n.ep[d], HostStep(n).ep[d])
    ensures HostStep(n).gpu == n.gpu && HostStep(n).output == n.output
  {
  }

  /** A host step keeps its own posts accounted for. */
  lemma HostSameLanded<V>(net: Net<V>, n: Node<V>, d: nat)
    requires d < 2 && NodeOk(net, n)
    requires Bells(n, n.host.round) && HostEnabled(n) && WireOk(n.host, d, n.ep[d].wire)
    ensures SameLanded(n.host, n.ep[d].wire, HostStep(n).host, HostStep(n).ep[d].wire, d)
  {
    var h, e := n.host, n.ep[d];
    IdleKeepsLanded(h, e.wire, d);
    if h.round == d {
      PostKeepsLanded(h, e.wire, d);
      if h.pc == 2 {
        assert e.producer == h.sq;
      } else if h.pc == 4 {
        assert e.consumer == h.sq;
      }
    } else {
      assert HostStep(n).ep[d] == e;
    }
  }

  /** A link survives when its landed counts, the arrivals and the payload's place do. */
  lemma LinkCongruence<V>(net: Net<V>, r: nat, h: Pos, from: Endpoint<V>, to: Endpoint<V>, d: nat,
                          h': Pos, from': Endpoint<V>, to': Endpoint<V>)
    requires r < RANKS && Link(net, r, h, from, to, d)
    requires SameLanded(h, from.wire, h', from'.wire, d) && SameArrivals(to, to')
    ensures Link(net, r, h', from', to', d)
  {
  }

  /** Only the wire, the arrivals and the sender's host matter to a link. */
  lemma LinkFrame<V>(net: Net<V>, r: nat, h: Pos, from: Endpoint<V>, to: Endpoint<V>, d: nat,
                     from': Endpoint<V>, to': Endpoint<V>)
    requires r < RANKS && Link(net, r, h, from, to, d) && from.wire == from'.wire && SameArrivals(to, to')
    ensures Link(net, r, h, from', to', d)
  {
  }

  /** What node r looks like to its partners is unchanged, its own posts accounted for. */
  ghost predicate Replaceable<V>(net: Net<V>, s: State<V>, r: nat, n: Node<V>)
    requires Shaped(net, s) && r < RANKS
  {
    && NodeOk(net, n)
    && forall d | 0 <= d < 2 ::
         SameArrivals(s[r].ep[d], n.ep[d]) && SameLanded(s[r].host, s[r].ep[d].wire, n.host, n.ep[d].wire, d)
  }

  lemma ReplaceLink<V>(net: Net<V>, s: State<V>, r: nat, n: Node<V>, q: nat, d: nat)
    requires Shaped(net, s) && r < RANKS && Replaceable(net, s, r, n) && q < RANKS && d < 2 && LinkAt(net, s, q, d)
    ensures LinkAt(net, s[r := n], q, d)
  {
    var p := Peer(q, d);
    if q == r {
      LinkCongruence(net, q, s[q].host, s[q].ep[d], s[p].ep[d], d, n.host, n.ep[d], s[p].ep[d]);
    } else if p == r {
      LinkFrame(net, q, s[q].host, s[q].ep[d], s[p].ep[d], d, s[q].ep[d], n.ep[d]);
    }
  }

  /** Replacing one node that way keeps the invariant. */
  lemma ReplaceNode<V>(net: Net<V>, s: State<V>, r: nat, n: Node<V>)
    requires Inv(net, s) && r < RANKS && Replaceable(net, s, r, n) && Local(net, r, n)
    ensures Inv(net, s[r := n])
  {
    var t := s[r := n];
    forall q, d | 0 <= q < RANKS && 0 <= d < 2 ensures LinkAt(net, t, q, d) {
      ReplaceLink(net, s, r, n, q, d);
    }
  }

  lemma HostNode<V>(net: Net<V>, s: State<V>, r: nat)
    requires Inv(net, s) && Enabled(net, s, Host(r))
    ensures NodeOk(net, HostStep(s[r])) && Local(net, r, HostStep(s[r]))
  {
    assert Local(net, r, s[r]);
    HostBells(net, s[r], 0);
    HostBells(net, s[r], 1);
  }

  lemma HostFrame<V>(net: Net<V>, s: State<V>, r: nat, d: nat)
    requires Inv(net, s) && Enabled(net, s, Host(r)) && d < 2
    ensures
      var n := HostStep(s[r]);
      SameArrivals(s[r].ep[d], n.ep[d]) && SameLanded(s[r].host, s[r].ep[d].wire, n.host, n.ep[d].wire, d)
  {
    assert Local(net, r, s[r]) && LinkAt(net, s, r, d);
    HostBells(net, s[r], d);
    HostSameLanded(net, s[r], d);
  }

  lemma HostKeeps<V>(net: Net<V>, s: State<V>, r: nat)
    requires Inv(net, s) && Enabled(net, s, Host(r))
    ensures Inv(net, Apply(net, s, Host(r)))
  {
    var n := HostStep(s[r]);
    HostNode(net, s, r);
    forall d | 0 <= d < 2
      ensures SameArrivals(s[r].ep[d], n.ep[d]) && SameLanded(s[r].host, s[r].ep[d].wire, n.host, n.ep[d].wire, d)
    {
      HostFrame(net, s, r, d);
    }
    ReplaceNode(net, s, r, n);
  }

  // ---- flow control ----

  /** How many payloads of round d have landed in rank r's receive buffer. */
  ghost function Landed<V>(s: State<V>, r: nat, d: nat): int
    requires |s| == RANKS && r < RANKS && d < 2 && |s[Peer(r, d)].ep| == 2
  {
    Done(s[Peer(r, d)].host, d, 1) - Pending(s[Peer(r, d)].ep[d].wire, Payload)
  }

  /** Flow control: the partner's host has posted at most one payload more than this rank's
      GPU has consumed, and a bell is never ahead of its payload. */
  lemma FlowControl<V>(net: Net<V>, s: State<V>, r: nat, d: nat)
    requires Inv(net, s) && r < RANKS && d < 2
    ensures Done(s[Peer(r, d)].host, d, 1) <= Done(s[r].gpu, d, 4) + 1
    ensures s[r].ep[d].remote <= Landed(s, r, d)
    ensures Landed(s, r, d) >= 1 ==> s[r].ep[d].recv == Sent(net, Peer(r, d), d, Landed(s, r, d))
  {
    var p := Peer(r, d);
    InvAt(net, s, r, d);
    assert WireOk(s[p].host, d, s[p].ep[d].wire);
    assert Done(s[p].host, d, 1) <= Done(s[p].host, d, 6) + 1;
  }

  /** A consumer that has seen the bell of its sequence has that sequence's payload in its
      receive buffer, and its own contribution still in its send buffer. */
  lemma ReadsOwnSequence<V>(net: Net<V>, s: State<V>, r: nat)
    requires Inv(net, s) && r < RANKS && s[r].gpu.pc in {3, 4}
    ensures
      var g := s[r].gpu;
      && Landed(s, r, g.round) == g.sq
      && s[r].ep[g.round].recv == Sent(net, Peer(r, g.round), g.round, g.sq)
      && s[r].ep[g.round].send == Sent(net, r, g.round, g.sq)
  {
    FlowControl(net, s, r, s[r].gpu.round);
    InvAt(net, s, r, s[r].gpu.round);
  }

  // ---- GPU steps ----

  lemma GpuBells<V>(net: Net<V>, r: nat, n: Node<V>, d: nat)
    requires d < 2 && NodeOk(net, n) && Bells(n, d) && GpuEnabled(n)
    ensures Bells(GpuStep(net, r, n), d)
    ensures SameArrivals(n.ep[d], GpuStep(net, r, n).ep[d]) && GpuStep(net, r, n).ep[d].wire == n.ep[d].wire
    ensures GpuStep(net, r, n).host == n.host
  {
  }

  lemma GpuValues<V>(net: Net<V>, r: nat, n: Node<V>)
    requires r < RANKS && NodeOk(net, n) && Values(net, r, n)
    requires n.gpu.pc == 3 ==>
               && n.ep[n.gpu.round].send == Sent(net, r, n.gpu.round, n.gpu.sq)
               && n.ep[n.gpu.round].recv == Sent(net, Peer(r, n.gpu.round), n.gpu.round, n.gpu.sq)
    ensures Values(net, r, GpuStep(net, r, n))
  {
    var g, t := n.gpu, GpuStep(net, r, n);
    if g.pc in {0, 3} {
    } else {
      assert Filled(t.gpu, 0) == Filled(g, 0) && Filled(t.gpu, 1) == Filled(g, 1) && Done(t.gpu, 1, 3) == Done(g, 1, 3);
    }
  }

  lemma GpuNode<V>(net: Net<V>, s: State<V>, r: nat)
    requires Inv(net, s) && Enabled(net, s, Gpu(r))
    ensures NodeOk(net, GpuStep(net, r, s[r])) && Local(net, r, GpuStep(net, r, s[r]))
  {
    assert Local(net, r, s[r]);
    if s[r].gpu.pc == 3 {
      ReadsOwnSequence(net, s, r);
    }
    GpuValues(net, r, s[r]);
    GpuBells(net, r, s[r], 0);
    GpuBells(net, r, s[r], 1);
  }

  lemma GpuFrame<V>(net: Net<V>, s: State<V>, r: nat, d: nat)
    requires Inv(net, s) && Enabled(net, s, Gpu(r)) && d < 2
    ensures
      var n := GpuStep(net, r, s[r]);
      SameArrivals(s[r].ep[d], n.ep[d]) && SameLanded(s[r].host, s[r].ep[d].wire, n.host, n.ep[d].wire, d)
  {
    assert Local(net, r, s[r]) && LinkAt(net, s, r, d);
    GpuBells(net, r, s[r], d);
  }

  lemma GpuKeeps<V>(net: Net<V>, s: State<V>, r: nat)
    requires Inv(net, s) && Enabled(net, s, Gpu(r))
    ensures Inv(net, Apply(net, s, Gpu(r)))
  {
    var n := GpuStep(net, r, s[r]);
    GpuNode(net, s, r);
    forall d | 0 <= d < 2
      ensures SameArrivals(s[r].ep[d], n.ep[d]) && SameLanded(s[r].host, s[r].ep[d].wire, n.host, n.ep[d].wire, d)
    {
      GpuFrame(net, s, r, d);
    }
    ReplaceNode(net, s, r, n);
  }

  // ---- deliveries ----

  /** While a payload is in flight the send buffer holds exactly what it must carry, and the
      GPU's next step cannot overwrite it. */
  lemma SendStable<V>(net: Net<V>, s: State<V>, r: nat, d: nat)
    requires Inv(net, s) && r < RANKS && d < 2 && Pending(s[r].ep[d].wire, Payload) == 1
    ensures s[r].host.round == d && s[r].ep[d].send == Sent(net, r, d, s[r].host.sq)
    ensures Enabled(net, s, Gpu(r)) ==> !(s[r].gpu.round == 0 && s[r].gpu.pc == if d == 0 then 0 else 3)
  {
    assert Local(net, r, s[r]) && LinkAt(net, s, r, d);
  }

  /** Landing the oldest write moves it from the wire to the receiver. */
  lemma DeliverLink<V>(net: Net<V>, r: nat, h: Pos, from: Endpoint<V>, to: Endpoint<V>, d: nat)
    requires r < RANKS && d < 2 && Link(net, r, h, from, to, d) && from.wire != []
    requires from.wire[0] == Payload ==> from.send == Sent(net, r, d, h.sq)
    ensures Link(net, r, h, from.(wire := from.wire[1..]), Land(from.wire[0], from, to), d)
    ensures to.remote <= Land(from.wire[0], from, to).remote && to.ack <= Land(from.wire[0], from, to).ack
  {
  }

  /** Arrivals can only move a node's bells forward. */
  lemma ArrivalKeepsLocal<V>(net: Net<V>, r: nat, n: Node<V>, d: nat, e: Endpoint<V>)
    requires r < RANKS && d < 2 && NodeOk(net, n) && Local(net, r, n)
    requires e == n.ep[d].(remote := e.remote, ack := e.ack, recv := e.recv, wire := e.wire)
    requires n.ep[d].remote <= e.remote && n.ep[d].ack <= e.ack
    ensures Local(net, r, n.(ep := n.ep[d := e]))
  {
    var m := n.(ep := n.ep[d := e]);
    assert Bells(m, d) && Bells(m, 1 - d);
  }

  /** Every other link is unaffected by a delivery. */
  lemma DeliverFrame<V>(net: Net<V>, s: State<V>, r: nat, d: nat, q: nat, e: nat)
    requires Shaped(net, s) && Enabled(net, s, Deliver(r, d)) && q < RANKS && e < 2 && (q != r || e != d)
    ensures
      var t := Apply(net, s, Deliver(r, d));
      && t[q].host == s[q].host && t[q].ep[e].wire == s[q].ep[e].wire
      && SameArrivals(s[Peer(q, e)].ep[e], t[Peer(q, e)].ep[e])
  {
  }

  lemma DeliverNodes<V>(net: Net<V>, s: State<V>, r: nat, d: nat)
    requires Shaped(net, s) && Enabled(net, s, Deliver(r, d))
    ensures
      var t, p, from := Apply(net, s, Deliver(r, d)), Peer(r, d), s[r].ep[d];
      && t[r] == s[r].(ep := s[r].ep[d := from.(wire := from.wire[1..])])
      && t[p] == s[p].(ep := s[p].ep[d := Land(from.wire[0], from, s[p].ep[d])])
      && forall q | 0 <= q < RANKS && q != r && q != p :: t[q] == s[q]
  {
  }

  /** The delivered write carries what the sender must send, and only moves bells forward. */
  lemma DeliverMono<V>(net: Net<V>, s: State<V>, r: nat, d: nat)
    requires Inv(net, s) && Enabled(net, s, Deliver(r, d))
    ensures
      var from, to := s[r].ep[d], s[Peer(r, d)].ep[d];
      && (from.wire[0] == Payload ==> from.send == Sent(net, r, d, s[r].host.sq))
      && to.remote <= Land(from.wire[0], from, to).remote && to.ack <= Land(from.wire[0], from, to).ack
  {
    assert LinkAt(net, s, r, d);
    if s[r].ep[d].wire[0] == Payload {
      SendStable(net, s, r, d);
    }
    DeliverLink(net, r, s[r].host, s[r].ep[d], s[Peer(r, d)].ep[d], d);
  }

  lemma DeliverLocals<V>(net: Net<V>, s: State<V>, r: nat, d: nat, q: nat)
    requires Inv(net, s) && Enabled(net, s, Deliver(r, d)) && q < RANKS
    ensures Local(net, q, Apply(net, s, Deliver(r, d))[q])
  {
    var p, from := Peer(r, d), s[r].ep[d];
    DeliverNodes(net, s, r, d);
    DeliverMono(net, s, r, d);
    assert Local(net, q, s[q]);
    if q == r {
      ArrivalKeepsLocal(net, r, s[r], d, from.(wire := from.wire[1..]));
    } else if q == p {
      ArrivalKeepsLocal(net, p, s[p], d, Land(from.wire[0], from, s[p].ep[d]));
    }
  }

  lemma DeliverLinks<V>(net: Net<V>, s: State<V>, r: nat, d: nat, q: nat, e: nat)
    requires Inv(net, s) && Enabled(net, s, Deliver(r, d)) && q < RANKS && e < 2
    ensures LinkAt(net, Apply(net, s, Deliver(r, d)), q, e)
  {
    var t, from := Apply(net, s, Deliver(r, d)), s[r].ep[d];
    assert LinkAt(net, s, q, e);
    if q == r && e == d {
      DeliverMono(net, s, r, d);
      DeliverLink(net, r, s[r].host, from, s[Peer(r, d)].ep[d], d);
    } else {
      DeliverFrame(net, s, r, d, q, e);
      LinkFrame(net, q, s[q].host, s[q].ep[e], s[Peer(q, e)].ep[e], e, t[q].ep[e], t[Peer(q, e)].ep[e]);
    }
  }

  lemma DeliverKeeps<V>(net: Net<V>, s: State<V>, r: nat, d: nat)
    requires Inv(net, s) && Enabled(net, s, Deliver(r, d))
    ensures Inv(net, Apply(net, s, Deliver(r, d)))
  {
    var t := Apply(net, s, Deliver(r, d));
    forall q | 0 <= q < RANKS ensures Local(net, q, t[q]) {
      DeliverLocals(net, s, r, d, q);
    }
    forall q, e | 0 <= q < RANKS && 0 <= e < 2 ensures LinkAt(net, t, q, e) {
      DeliverLinks(net, s, r, d, q, e);
    }
  }

  // ---- safety over whole runs ----

  ghost predicate LegalRun<V>(net: Net<V>, s: State<V>, run: seq<Action>)
    requires Shaped(net, s)
    decreases |run|
  {
    run == [] || (Enabled(net, s, run[0]) && LegalRun(net, Apply(net, s, run[0]), run[1..]))
  }

  ghost function Run<V>(net: Net<V>, s: State<V>, run: seq<Action>): (t: State<V>)
    requires Shaped(net, s) && LegalRun(net, s, run)
    ensures Shaped(net, t)
    decreases |run|
  {
    if run == [] then s else Run(net, Apply(net, s, run[0]), run[1..])
  }

  lemma ApplyKeeps<V>(net: Net<V>, s: State<V>, a: Action)
    requires Inv(net, s) && Enabled(net, s, a)
    ensures Inv(net, Apply(net, s, a))
  {
    match a
    case Host(r) => HostKeeps(net, s, r);
    case Gpu(r) => GpuKeeps(net, s, r);
    case Deliver(r, d) => DeliverKeeps(net, s, r, d);
  }

  lemma {:induction false} RunKeeps<V>(net: Net<V>, s: State<V>, run: seq<Action>)
    requires Inv(net, s) && LegalRun(net, s, run)
    ensures Inv(net, Run(net, s, run))
    decreases |run|
  {
    if run != [] {
      ApplyKeeps(net, s, run[0]);
      RunKeeps(net, Apply(net, s, run[0]), run[1..]);
    }
  }

  lemma ReachableInv<V>(net: Net<V>, s: State<V>, run: seq<Action>)
    requires Initial(net, s) && LegalRun(net, s, run)
    ensures Inv(net, Run(net, s, run))
  {
    InitialInv(net, s);
    RunKeeps(net, s, run);
  }

  lemma LandingPayload<V>(net: Net<V>, t: State<V>, r: nat, d: nat)
    requires Inv(net, t) && r < RANKS && d < 2 && t[r].ep[d].wire != [] && t[r].ep[d].wire[0] == Payload
    ensures
      var p := Peer(r, d);
      && t[p].ep[d].consumer == t[p].ep[d].remote == t[r].host.sq - 1
      && t[r].ep[d].send == Sent(net, r, d, t[r].host.sq)
  {
    InvAt(net, t, r, d);
    FlowControl(net, t, Peer(r, d), d);
    SendStable(net, t, r, d);
  }

  /** Two-party flow control over all runs: when a payload of some sequence lands in a
      partner's receive buffer, that partner's GPU has already consumed the previous one. */
  lemma PayloadLandsAfterConsumption<V>(net: Net<V>, s: State<V>, run: seq<Action>, r: nat, d: nat)
    requires Initial(net, s) && LegalRun(net, s, run) && r < RANKS && d < 2
    requires
      var t := Run(net, s, run);
      t[r].ep[d].wire != [] && t[r].ep[d].wire[0] == Payload
    ensures
      var t := Run(net, s, run);
      var u := Apply(net, t, Deliver(r, d));
      var p := Peer(r, d);
      && t[p].ep[d].consumer == t[p].ep[d].remote == t[r].host.sq - 1
      && u[p].ep[d].recv == Sent(net, r, d, t[r].host.sq)
  {
    var t := Run(net, s, run);
    ReachableInv(net, s, run);
    LandingPayload(net, t, r, d);
    DeliverNodes(net, t, r, d);
  }

  /** While a consumer is between seeing its bell and publishing, no payload is in flight to it. */
  lemma NothingInFlight<V>(net: Net<V>, t: State<V>, r: nat)
    requires Inv(net, t) && r < RANKS && t[r].gpu.pc in {3, 4}
    ensures
      var from := t[Peer(r, t[r].gpu.round)].ep[t[r].gpu.round];
      from.wire != [] ==> from.wire[0] != Payload
  {
    var d := t[r].gpu.round;
    var p := Peer(r, d);
    InvAt(net, t, r, d);
    if t[p].ep[d].wire != [] && t[p].ep[d].wire[0] == Payload {
      LandingPayload(net, t, p, d);
    }
  }

  lemma RecvFrame<V>(net: Net<V>, t: State<V>, q: nat, e: nat, r: nat, d: nat)
    requires Shaped(net, t) && Enabled(net, t, Deliver(q, e)) && r < RANKS && d < 2
    requires e == d && Peer(q, e) == r ==> t[q].ep[e].wire[0] != Payload
    ensures Apply(net, t, Deliver(q, e))[r].ep[d].recv == t[r].ep[d].recv
  {
  }

  lemma ReadStable<V>(net: Net<V>, t: State<V>, r: nat, a: Action)
    requires Inv(net, t) && r < RANKS && t[r].gpu.pc in {3, 4} && Enabled(net, t, a)
    ensures Apply(net, t, a)[r].ep[t[r].gpu.round].recv == t[r].ep[t[r].gpu.round].recv
  {
    var d := t[r].gpu.round;
    if a.Deliver? {
      NothingInFlight(net, t, r);
      RecvFrame(net, t, a.rank, a.round, r, d);
    } else if a.rank == r {
      if a.Host? {
        HostFrame(net, t, r, d);
      } else {
        GpuFrame(net, t, r, d);
      }
    }
  }

  /** A consumer that has seen the bell of its sequence is never overwritten before it has
      published the consumption, in any run and whatever the other threads do. */
  lemma NoOverwriteWhileReading<V>(net: Net<V>, s: State<V>, run: seq<Action>, r: nat, a: Action)
    requires Initial(net, s) && LegalRun(net, s, run) && r < RANKS
    requires
      var t := Run(net, s, run);
      t[r].gpu.pc in {3, 4} && Enabled(net, t, a)
    ensures
      var t, d := Run(net, s, run), Run(net, s, run)[r].gpu.round;
      Apply(net, t, a)[r].ep[d].recv == t[r].ep[d].recv == Sent(net, Peer(r, d), d, t[r].gpu.sq)
  {
    ReachableInv(net, s, run);
    ReadsOwnSequence(net, Run(net, s, run), r);
    ReadStable(net, Run(net, s, run), r, a);
  }

  /** The four sums agree when addition commutes: no associativity is needed. */
  lemma TotalsAgree<V(!new)>(net: Net<V>, r: nat, q: nat)
    requires r < RANKS && forall a, b :: net.add(a, b) == net.add(b, a)
    ensures Total(net, r, q) == Total(net, 0, q)
    ensures Total(net, 0, q) == net.add(net.add(net.input(0, q), net.input(1, q)),
            net.add(net.input(2, q), net.input(3, q)))
  {
    assert Pair(net, 1, q) == Pair(net, 0, q) && Pair(net, 3, q) == Pair(net, 2, q);
  }

  /** After both rounds of a sequence a rank holds the four-way sum, the same on every rank. */
  lemma AllReduceResult<V(!new)>(net: Net<V>, s: State<V>, run: seq<Action>, r: nat)
    requires Initial(net, s) && LegalRun(net, s, run) && r < RANKS
    requires forall a, b :: net.add(a, b) == net.add(b, a)
    requires Run(net, s, run)[r].ep[1].consumer >= 1
    ensures
      var n := Run(net, s, run)[r];
      var q := Done(n.gpu, 1, 3);
      && n.ep[1].consumer <= q <= n.ep[1].consumer + 1
      && n.output == Total(net, 0, q)
  {
    ReachableInv(net, s, run);
    assert Local(net, r, Run(net, s, run)[r]);
    TotalsAgree(net, r, Done(Run(net, s, run)[r].gpu, 1, 3));
  }

  /** Partners never drift more than one sequence apart. */
  lemma PartnersInStep<V>(net: Net<V>, s: State<V>, run: seq<Action>, r: nat, d: nat)
    requires Initial(net, s) && LegalRun(net, s, run) && r < RANKS && d < 2
    ensures
      var t := Run(net, s, run);
      -1 <= t[r].host.sq - t[Peer(r, d)].host.sq <= 1 && -1 <= t[r].gpu.sq - t[Peer(r, d)].gpu.sq <= 1
  {
    var t := Run(net, s, run);
    ReachableInv(net, s, run);
    InvAt(net, t, r, d);
    FlowControl(net, t, r, d);
    FlowControl(net, t, Peer(r, d), d);
  }

  // ---- progress ----

  function HostLeft(final: nat, p: Pos): int { (final + 1 - p.sq) * 14 - p.round * 7 - p.pc }

  function GpuLeft(final: nat, p: Pos): int { (final + 1 - p.sq) * 12 - p.round * 6 - p.pc }

  ghost function NodeLeft<V>(net: Net<V>, n: Node<V>): (m: int)
    requires NodeOk(net, n)
    ensures m >= 0
  {
    2 * HostLeft(net.final, n.host) + GpuLeft(net.final, n.gpu) + |n.ep[0].wire| + |n.ep[1].wire|
  }

  /** Steps left to take, host steps counted twice because they may post a write. */
  ghost function Measure<V>(net: Net<V>, s: State<V>): (m: nat)
    requires Shaped(net, s)
  {
    NodeLeft(net, s[0]) + NodeLeft(net, s[1]) + NodeLeft(net, s[2]) + NodeLeft(net, s[3])
  }

  lemma PosAdvance<V>(net: Net<V>, p: Pos, last: nat)
    requires PosOk(net, p, last) && p.sq <= net.final && last in {5, 6}
    ensures p.pc < last ==> PosOk(net, Step(p), last)
    ensures PosOk(net, NextRound(p), last)
    ensures HostLeft(net.final, Step(p)) == HostLeft(net.final, p) - 1
    ensures GpuLeft(net.final, Step(p)) == GpuLeft(net.final, p) - 1
    ensures p.pc == 6 ==> HostLeft(net.final, NextRound(p)) == HostLeft(net.final, p) - 1
    ensures p.pc == 5 ==> GpuLeft(net.final, NextRound(p)) == GpuLeft(net.final, p) - 1
  {
  }

  lemma HostDecreases<V>(net: Net<V>, n: Node<V>)
    requires NodeOk(net, n) && n.host.sq <= net.final
    ensures NodeOk(net, HostStep(n)) && NodeLeft(net, HostStep(n)) < NodeLeft(net, n)
  {
    PosAdvance(net, n.host, 6);
    var m := HostStep(n);
    assert m.host == if n.host.pc == 6 then NextRound(n.host) else Step(n.host);
    assert m.gpu == n.gpu && |m.ep[0].wire| + |m.ep[1].wire| <= |n.ep[0].wire| + |n.ep[1].wire| + 1;
  }

  lemma GpuDecreases<V>(net: Net<V>, r: nat, n: Node<V>)
    requires NodeOk(net, n) && n.gpu.sq <= net.final
    ensures NodeOk(net, GpuStep(net, r, n)) && NodeLeft(net, GpuStep(net, r, n)) < NodeLeft(net, n)
  {
    PosAdvance(net, n.gpu, 5);
    var m := GpuStep(net, r, n);
    assert m.gpu == if n.gpu.pc == 5 then NextRound(n.gpu) else Step(n.gpu);
    assert m.host == n.host && m.ep[0].wire == n.ep[0].wire && m.ep[1].wire == n.ep[1].wire;
  }

  lemma MeasureReplace<V>(net: Net<V>, s: State<V>, t: State<V>, r: nat)
    requires Shaped(net, s) && Shaped(net, t) && r < RANKS
    requires forall q | 0 <= q < RANKS && q != r :: NodeLeft(net, t[q]) == NodeLeft(net, s[q])
    ensures Measure(net, t) - Measure(net, s) == NodeLeft(net, t[r]) - NodeLeft(net, s[r])
  {
  }

  lemma DeliverDecreases<V>(net: Net<V>, s: State<V>, r: nat, d: nat)
    requires Shaped(net, s) && Enabled(net, s, Deliver(r, d))
    ensures Measure(net, Apply(net, s, Deliver(r, d))) < Measure(net, s)
  {
    var t, p := Apply(net, s, Deliver(r, d)), Peer(r, d);
    DeliverNodes(net, s, r, d);
    assert t[p].ep[0].wire == s[p].ep[0].wire && t[p].ep[1].wire == s[p].ep[1].wire;
    MeasureReplace(net, s, t, r);
  }

  lemma MeasureDecreases<V>(net: Net<V>, s: State<V>, a: Action)
    requires Shaped(net, s) && Enabled(net, s, a)
    ensures Measure(net, Apply(net, s, a)) < Measure(net, s)
  {
    var t := Apply(net, s, a);
    if a.Deliver? {
      DeliverDecreases(net, s, a.rank, a.round);
    } else {
      if a.Host? {
        HostDecreases(net, s[a.rank]);
      } else {
        GpuDecreases(net, a.rank, s[a.rank]);
      }
      MeasureReplace(net, s, t, a.rank);
    }
  }

  /** Every run is shorter than the initial measure: the protocol terminates. */
  lemma {:induction false} RunBounded<V>(net: Net<V>, s: State<V>, run: seq<Action>)
    requires Shaped(net, s) && LegalRun(net, s, run)
    ensures |run| + Measure(net, Run(net, s, run)) <= Measure(net, s)
    decreases |run|
  {
    if run != [] {
      MeasureDecreases(net, s, run[0]);
      RunBounded(net, Apply(net, s, run[0]), run[1..]);
    }
  }

  /** No write is in flight. */
  ghost predicate Quiet<V>(net: Net<V>, s: State<V>)
    requires Shaped(net, s)
  {
    forall r, d | 0 <= r < RANKS && 0 <= d < 2 :: s[r].ep[d].wire == []
  }

  ghost predicate Finished<V>(net: Net<V>, s: State<V>)
    requires Shaped(net, s)
  {
    Quiet(net, s) && forall r | 0 <= r < RANKS :: s[r].host.sq == s[r].gpu.sq == net.final + 1
  }

  function Exchange(p: Pos): int { 2 * p.sq + p.round }

  /** A host that only waits for its own GPU to produce, or waits for nothing. */
  lemma EarlyHostMoves<V>(net: Net<V>, s: State<V>, r: nat) returns (a: Action)
    requires Inv(net, s) && Quiet(net, s) && r < RANKS && s[r].host.sq <= net.final && s[r].host.pc <= 3
    ensures Enabled(net, s, a)
  {
    assert Local(net, r, s[r]);
    a := if s[r].host.pc == 1 && s[r].ep[s[r].host.round].producer < s[r].host.sq then Gpu(r) else Host(r);
  }

  /** A host waiting for its GPU to consume, whose partner is in the same exchange or later. */
  lemma ConsumingHostMoves<V>(net: Net<V>, s: State<V>, r: nat) returns (a: Action)
    requires Inv(net, s) && Quiet(net, s) && r < RANKS && s[r].host.sq <= net.final && s[r].host.pc == 4
    requires Exchange(s[r].host) <= Exchange(s[Peer(r, s[r].host.round)].host)
    ensures Enabled(net, s, a)
  {
    var h := s[r].host;
    var p := Peer(r, h.round);
    InvAt(net, s, r, h.round);
    assert s[p].ep[h.round].wire == [];
    if s[r].ep[h.round].consumer >= h.sq {
      a := Host(r);
    } else if s[r].gpu.pc != 2 || s[r].ep[h.round].remote >= h.sq {
      a := Gpu(r);
    } else {
      a := EarlyHostMoves(net, s, p);
    }
  }

  /** A host waiting for the acknowledgement to be observed. */
  lemma ObservingHostMoves<V>(net: Net<V>, s: State<V>, r: nat) returns (a: Action)
    requires Inv(net, s) && Quiet(net, s) && r < RANKS && s[r].host.sq <= net.final && s[r].host.pc in {5, 6}
    requires Exchange(s[r].host) <= Exchange(s[Peer(r, s[r].host.round)].host)
    ensures Enabled(net, s, a)
  {
    var h := s[r].host;
    var p := Peer(r, h.round);
    InvAt(net, s, r, h.round);
    assert s[p].ep[h.round].wire == [] && s[r].ep[h.round].wire == [];
    if h.pc == 5 || s[r].ep[h.round].observed >= h.sq {
      a := Host(r);
    } else if s[r].gpu.pc != 5 || s[r].ep[h.round].ack >= h.sq {
      a := Gpu(r);
    } else if s[p].host.pc <= 3 {
      a := EarlyHostMoves(net, s, p);
    } else {
      a := ConsumingHostMoves(net, s, p);
    }
  }

  lemma LeastHost<V>(net: Net<V>, s: State<V>) returns (r: nat)
    requires Shaped(net, s)
    ensures r < RANKS && forall q | 0 <= q < RANKS :: Exchange(s[r].host) <= Exchange(s[q].host)
  {
    r := 0;
    for q := 1 to RANKS
      invariant r < RANKS && forall j | 0 <= j < q :: Exchange(s[r].host) <= Exchange(s[j].host)
    {
      if Exchange(s[q].host) < Exchange(s[r].host) {
        r := q;
      }
    }
  }

  /** No reachable unfinished state is stuck. */
  lemma NeverStuck<V>(net: Net<V>, s: State<V>) returns (a: Action)
    requires Inv(net, s) && !Finished(net, s)
    ensures Enabled(net, s, a)
  {
    if !Quiet(net, s) {
      var r, d :| 0 <= r < RANKS && 0 <= d < 2 && s[r].ep[d].wire != [];
      a := Deliver(r, d);
    } else {
      var r := LeastHost(net, s);
      if s[r].host.sq > net.final {
        forall q | 0 <= q < RANKS ensures s[q].host.sq == s[q].gpu.sq == net.final + 1 {
          assert Local(net, q, s[q]);
        }
        assert false;
      } else if s[r].host.pc <= 3 {
        a := EarlyHostMoves(net, s, r);
      } else if s[r].host.pc == 4 {
        a := ConsumingHostMoves(net, s, r);
      } else {
        a := ObservingHostMoves(net, s, r);
      }
    }
  }

  /** A run that cannot be extended has finished every sequence, with the four-way sum of the
      last one on every rank. */
  lemma MaximalRunCompletes<V(!new)>(net: Net<V>, s: State<V>, run: seq<Action>)
    requires Initial(net, s) && LegalRun(net, s, run) && 0 < net.final
    requires forall a, b :: net.add(a, b) == net.add(b, a)
    requires forall a :: !Enabled(net, Run(net, s, run), a)
    ensures Finished(net, Run(net, s, run))
    ensures forall r | 0 <= r < RANKS :: Run(net, s, run)[r].output == Total(net, 0, net.final)
  {
    var t := Run(net, s, run);
    ReachableInv(net, s, run);
    if !Finished(net, t) {
      var a := NeverStuck(net, t);
    }
    forall r | 0 <= r < RANKS ensures t[r].output == Total(net, 0, net.final) {
      assert Local(net, r, t[r]);
      TotalsAgree(net, r, net.final);
    }
  }
}
