/** A mesh of any number of 1905 nodes over a network that may drop, duplicate, delay and reorder
    frames: every frame ever sent stays deliverable for ever, and nothing else is delivered. */
module Mesh {
  import opened Base
  import opened Eapol

  datatype Packet = Packet(src: Mac, dst: Mac, frame: Frame)

  /** Who drew a nonce, for which peer, and as what.  An ANonce also records the replay counter of
      the frame 1 it was drawn for, and whether that one asks for a rekey. */
  datatype Origin = ANonce(node: Mac, peer: Mac, counter: nat, rekey: bool) | SNonce(node: Mac, peer: Mac)

  /** `origin` and `log` are history: no step reads them except to draw a nonce not drawn before. */
  datatype State = State(nodes: map<Mac, Node>, net: set<Packet>, origin: map<Nonce, Origin>, log: seq<Event>)

  /** `sent` and `responded` are what the send callbacks return; `rnd` is what RAND_bytes returns. */
  datatype Step =
    | DiscoveryRequest(at: Mac, peer: Mac, rnd: Nonce, responded: bool, sent: bool)
    | DiscoveryResponse(at: Mac, peer: Mac)
    | RekeyPtk(at: Mac, peer: Mac, rnd: Nonce, sent: bool)
    | RekeyPeer(at: Mac, peer: Mac, rnd: Nonce, sent: bool)
    | NewGtk(at: Mac)
    | GroupSend(at: Mac, peer: Mac, sent: bool)
    | Deliver(at: Mac, peer: Mac, frame: Frame, rnd: Nonce, sent: bool)
    | Restart(at: Mac, gtkId: byte)

  /** The step is towards one peer. */
  predicate HasPeer(step: Step) { !step.NewGtk? && !step.Restart? }

  ghost predicate Init(s: State) {
    && s.net == {} && s.origin == map[] && s.log == []
    && forall m :: m in s.nodes ==>
         var n := s.nodes[m];
         n.mac == m && n.gtk == NoGtk && n.derived == 0 && n.peers == map[]
  }

  predicate Unused(s: State, rnd: Nonce) { rnd != 0 && rnd !in s.origin }

  predicate Enabled(s: State, step: Step) {
    && step.at in s.nodes
    && (HasPeer(step) ==> step.peer != step.at)
    && ((step.DiscoveryRequest? || step.RekeyPtk? || step.RekeyPeer? || step.Deliver?) ==> Unused(s, step.rnd))
    && (step.Deliver? ==> Packet(step.peer, step.at, step.frame) in s.net)
  }

  /** The effect of a reaction of node `at` towards `peer`. */
  function Commit(s: State, at: Mac, peer: Mac, r: Reaction, origin: map<Nonce, Origin>): State {
    State(s.nodes[at := r.node],
          if r.out.Some? then s.net + {Packet(at, peer, r.out.value)} else s.net,
          origin,
          s.log + r.events)
  }

  function CounterOf(n: Node, peer: Mac): nat { if peer in n.peers then n.peers[peer].counter else 0 }

  /** What the node that takes the step does. */
  function React(n: Node, step: Step): Reaction {
    match step
    case DiscoveryRequest(_, peer, rnd, responded, sent) => OnDiscoveryRequest(n, peer, rnd, responded, sent)
    case DiscoveryResponse(_, peer) => Reaction(OnDiscoveryResponse(n, peer), None, [], true)
    case RekeyPtk(_, peer, rnd, sent) => Begin(n, peer, true, rnd, sent)
    case RekeyPeer(_, peer, rnd, sent) => RekeyPtkOne(n, peer, rnd, sent)
    case NewGtk(_) => Reaction(RekeyGtk(n), None, [], true)
    case GroupSend(_, peer, sent) => SendGroup(n, peer, sent)
    case Deliver(_, peer, frame, rnd, sent) => OnEapol(n, peer, frame, rnd, sent)
    case Restart(_, gtkId) => Reaction(Restarted(n, gtkId), None, [], true)
  }

  /** The nonces drawn once the step has been taken. */
  function Drawn(o: map<Nonce, Origin>, n: Node, step: Step): map<Nonce, Origin> {
    match step
    case DiscoveryRequest(at, peer, rnd, _, _) => o[rnd := ANonce(at, peer, 1, false)]
    case RekeyPtk(at, peer, rnd, _) => o[rnd := ANonce(at, peer, CounterOf(n, peer) + 1, true)]
    case RekeyPeer(at, peer, rnd, _) => o[rnd := ANonce(at, peer, CounterOf(n, peer) + 1, true)]
    case Deliver(at, peer, _, rnd, _) => o[rnd := SNonce(at, peer)]
    case _ => o
  }

  function PeerOf(step: Step): Mac { if HasPeer(step) then step.peer else step.at }

  function Apply(s: State, step: Step): State
    requires Enabled(s, step)
  {
    var n := s.nodes[step.at];
    Commit(s, step.at, PeerOf(step), React(n, step), Drawn(s.origin, n, step))
  }

  /** The states of a mesh that takes the given steps. */
  ghost predicate IsPath(states: seq<State>, steps: seq<Step>) {
    && |states| == |steps| + 1
    && forall i :: 0 <= i < |steps| ==> Takes(states[i], steps[i], states[i + 1])
  }

  /** A run: a path of a mesh that starts without keys. */
  ghost predicate IsRun(states: seq<State>, steps: seq<Step>) { IsPath(states, steps) && Init(states[0]) }

  predicate Takes(s: State, step: Step, s': State) { Enabled(s, step) && s' == Apply(s, step) }

  // -- The invariant ----------------------------------------------------------------------------

  ghost predicate Own(o: map<Nonce, Origin>, a: Mac, b: Mac, x: Nonce) {
    x in o && o[x].node == a && o[x].peer == b
  }
  ghost predicate OwnA(o: map<Nonce, Origin>, a: Mac, b: Mac, x: Nonce) { Own(o, a, b, x) && o[x].ANonce? }
  ghost predicate OwnS(o: map<Nonce, Origin>, a: Mac, b: Mac, x: Nonce) { Own(o, a, b, x) && o[x].SNonce? }

  ghost predicate Sent(net: set<Packet>, a: Mac, b: Mac, x: Nonce) {
    exists f :: Packet(a, b, f) in net && f.body.nonce == x
  }

  /** A pairwise frame with this nonce, counter and secure bit went from a to b. */
  ghost predicate Asked(net: set<Packet>, a: Mac, b: Mac, x: Nonce, counter: nat, secure: bool) {
    exists f :: Packet(a, b, f) in net && f.body.pairwise && f.body.nonce == x && f.body.counter == counter
                && f.body.secure == secure
  }

  /** Node a may use nonce x on its link to b: it drew x, or received it. */
  ghost predicate Known(o: map<Nonce, Origin>, net: set<Packet>, a: Mac, b: Mac, x: Nonce) {
    Own(o, a, b, x) || (Own(o, b, a, x) && Sent(net, b, a, x))
  }

  function LinkKey(a: Mac, b: Mac, x: Nonce, y: Nonce): Ptk { ComputePtk(PairPmk(a, b), a, b, x, y) }

  predicate OfLink(k: Ptk, a: Mac, b: Mac) { k.Ptk? && k == LinkKey(a, b, k.nonceLo, k.nonceHi) }

  predicate Has(k: Ptk, x: Nonce) { k.Ptk? && (k.nonceLo == x || k.nonceHi == x) }

  function Other(k: Ptk, x: Nonce): Nonce
    requires Has(k, x)
  {
    if k.nonceLo == x then k.nonceHi else k.nonceLo
  }

  ghost predicate KeyKnown(o: map<Nonce, Origin>, net: set<Packet>, a: Mac, b: Mac, k: Ptk) {
    OfLink(k, a, b) && Known(o, net, a, b, k.nonceLo) && Known(o, net, a, b, k.nonceHi)
  }

  function KeyOf(f: Frame): Ptk { if f.tag.Tag? then f.tag.key else NoPtk }

  predicate IsFrame1(f: Frame) { f.body.pairwise && !f.body.mic }
  predicate IsFrame2(f: Frame) { f.body.pairwise && f.body.mic && f.body.data.NoData? && f.body.nonce != 0 }
  predicate IsFrame3(f: Frame) { f.body.pairwise && f.body.mic && f.body.data.Wrapped? }
  predicate IsFrame4(f: Frame) { f.body.pairwise && f.body.mic && f.body.data.NoData? && f.body.nonce == 0 }

  ghost predicate Frame1Inv(o: map<Nonce, Origin>, a: Mac, b: Mac, f: Frame) {
    && OwnA(o, a, b, f.body.nonce) && f.body.counter == o[f.body.nonce].counter
    && f.body.secure == o[f.body.nonce].rekey && f.body.data == PmkidKde(PairPmk(a, b))
  }

  ghost predicate Frame2Inv(o: map<Nonce, Origin>, net: set<Packet>, a: Mac, b: Mac, f: Frame) {
    && OwnS(o, a, b, f.body.nonce)
    && Has(KeyOf(f), f.body.nonce)
    && Own(o, b, a, Other(KeyOf(f), f.body.nonce))
    && Asked(net, b, a, Other(KeyOf(f), f.body.nonce), f.body.counter, f.body.secure)
  }

  /** Frame 3 answers a frame 2 with the same key whose counter is one less. */
  ghost predicate Answered(net: set<Packet>, a: Mac, b: Mac, k: Ptk, s: Nonce, counter: nat) {
    exists f :: Packet(a, b, f) in net && IsFrame2(f) && f.body.nonce == s && f.body.counter == counter && KeyOf(f) == k
  }

  ghost predicate Frame3Inv(o: map<Nonce, Origin>, net: set<Packet>, a: Mac, b: Mac, f: Frame) {
    && OwnA(o, a, b, f.body.nonce)
    && f.body.counter == o[f.body.nonce].counter + 1
    && Has(KeyOf(f), f.body.nonce)
    && var s := Other(KeyOf(f), f.body.nonce);
       OwnS(o, b, a, s) && Answered(net, b, a, KeyOf(f), s, f.body.counter - 1)
  }

  /** Some frame 3 from a to b carries a MIC under k and this counter. */
  ghost predicate Confirmed(net: set<Packet>, a: Mac, b: Mac, k: Ptk, counter: nat) {
    exists f :: Packet(a, b, f) in net && IsFrame3(f) && KeyOf(f) == k && f.body.counter == counter
  }

  ghost predicate Frame4Inv(net: set<Packet>, log: seq<Event>, a: Mac, b: Mac, f: Frame) {
    && Confirmed(net, b, a, KeyOf(f), f.body.counter)
    && PtkInstalled(a, b, KeyOf(f), Supplicant) in log
  }

  ghost predicate FrameInv(o: map<Nonce, Origin>, net: set<Packet>, log: seq<Event>, a: Mac, b: Mac, f: Frame) {
    && a != b
    && (f.body.mic ==> f.tag.Tag? && !f.body.data.PmkidKde? && KeyKnown(o, net, a, b, KeyOf(f)))
    && (f.body.mic && !IsFrame2(f) ==> f.body.secure) && (f.body.data.Wrapped? ==> f.body.data.kek == KeyOf(f))
    && (f.body.nonce != 0 ==> f.body.pairwise)
    && (!f.body.mic ==> f.body.pairwise)
    && (IsFrame1(f) ==> Frame1Inv(o, a, b, f))
    && (IsFrame2(f) ==> Frame2Inv(o, net, a, b, f))
    && (IsFrame3(f) ==> Frame3Inv(o, net, a, b, f))
    && (IsFrame4(f) ==> Frame4Inv(net, log, a, b, f))
  }

  ghost predicate Unique2(net: set<Packet>) {
    forall a, b, f, g ::
      (Packet(a, b, f) in net && Packet(a, b, g) in net && IsFrame2(f) && IsFrame2(g) && f.body.nonce == g.body.nonce)
      ==> f == g
  }

  ghost predicate Unique3(net: set<Packet>) {
    forall a, b, f, g ::
      (Packet(a, b, f) in net && Packet(a, b, g) in net && IsFrame3(f) && IsFrame3(g) && f.body.nonce == g.body.nonce)
      ==> f == g
  }

  /** Frames 3 already sent with the current ANonce lie behind the replay counter, strictly unless
      frame 3 is the frame last sent. */
  ghost predicate Behind(net: set<Packet>, a: Mac, b: Mac, c: Ctx) {
    forall f :: Packet(a, b, f) in net && IsFrame3(f) && f.body.nonce == c.aNonce ==>
      f.body.counter <= c.counter && (c.idx != 3 ==> f.body.counter < c.counter)
  }

  ghost predicate CtxBase(o: map<Nonce, Origin>, net: set<Packet>, a: Mac, b: Mac, c: Ctx) {
    && a != b
    && (c.pmk == NoPmk || c.pmk == PairPmk(a, b))
    && (c.aNonce == 0 || OwnA(o, a, b, c.aNonce) || (Own(o, b, a, c.aNonce) && Sent(net, b, a, c.aNonce)))
    && (c.sNonce == 0 || Known(o, net, a, b, c.sNonce))
    && c.kek == c.kck
    && (c.ptk == NoPtk || c.ptk == c.kck)
    && (c.kck == NoPtk || KeyKnown(o, net, a, b, c.kck))
    && (c.kck != NoPtk || c.idx == 1 ==> c.aNonce != 0)
    && (OwnA(o, a, b, c.aNonce) ==> o[c.aNonce].counter <= c.counter)
    && Behind(net, a, b, c)
  }

  ghost predicate CtxInv(o: map<Nonce, Origin>, net: set<Packet>, a: Mac, b: Mac, c: Ctx) {
    && CtxBase(o, net, a, b, c)
    && (c.idx == 0 ==>
          && (c.sNonce != 0 ==> OwnS(o, a, b, c.sNonce) && !Sent(net, a, b, c.sNonce))
          && (c.kck != NoPtk ==> c.sNonce != 0 && Has(c.kck, c.sNonce)))
    && (c.idx == 2 ==> c.kck != NoPtk && c.ptk == c.kck)
    && (c.idx == 3 ==> c.kck != NoPtk && exists m: nat :: Confirmed(net, a, b, c.kck, m) && m <= c.counter
                                                         && (m == c.counter ==> c.ptk == c.kck))
  }

  /** The property the design promises of the log: an authenticator installs a pairwise key only
      after the supplicant has installed that same key, and the key is derived from the PMK of
      the two, the nonce the authenticator sent and the nonce the supplicant sent back. */
  ghost predicate Agreement(o: map<Nonce, Origin>, log: seq<Event>) {
    forall i :: 0 <= i < |log| && log[i].PtkInstalled? && log[i].role == Authenticator ==>
      && PtkInstalled(log[i].peer, log[i].node, log[i].ptk, Supplicant) in log[..i]
      && FromBoth(o, log[i].node, log[i].peer, log[i].ptk)
  }

  ghost predicate FromBoth(o: map<Nonce, Origin>, a: Mac, b: Mac, k: Ptk) {
    exists x, y :: OwnA(o, a, b, x) && OwnS(o, b, a, y) && k == LinkKey(a, b, x, y)
  }

  ghost predicate Inv(s: State) {
    && (forall a, b :: a in s.nodes && b in s.nodes[a].peers ==>
          CtxInv(s.origin, s.net, a, b, s.nodes[a].peers[b]))
    && (forall a, b, f {:trigger FrameInv(s.origin, s.net, s.log, a, b, f)} ::
          Packet(a, b, f) in s.net ==> FrameInv(s.origin, s.net, s.log, a, b, f))
    && (forall a :: a in s.nodes ==> s.nodes[a].mac == a)
    && 0 !in s.origin
    && Unique2(s.net) && Unique3(s.net)
  }
}
