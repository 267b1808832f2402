/** Runs that exist: a loss-free handshake, a replayed frame 1, and what one refused frame 4 leads to. */
module Scenarios {
  import opened Base
  import opened Eapol
  import opened Mesh
  import opened MeshProof
  import opened MeshSteps
  import opened Installs
  import opened GroupKey
  import opened Progress
  import opened Rekey
  import EncryptLayer

  lemma {:induction false} PathsJoin(states: seq<State>, steps: seq<Step>, states': seq<State>, steps': seq<Step>)
    requires IsPath(states, steps) && IsPath(states', steps') && states[|steps|] == states'[0]
    ensures IsPath(states + states'[1..], steps + steps')
    ensures (states + states'[1..])[|steps| + |steps'|] == states'[|steps'|]
  {
    var ss, ts := states + states'[1..], steps + steps';
    forall i | 0 <= i < |ts| ensures Takes(ss[i], ts[i], ss[i + 1]) {
      if i < |steps| {
        assert Takes(states[i], steps[i], states[i + 1]);
      } else {
        var j := i - |steps|;
        assert Takes(states'[j], steps'[j], states'[j + 1]);
      }
    }
  }

  /** All nonces from x on are still to be drawn. */
  predicate FreshFrom(s: State, x: Nonce) { x != 0 && forall y: Nonce :: y >= x ==> y !in s.origin }

  /** The authenticator's node once it has a group key to hand out. */
  function Ready(n: Node): Node { if n.hasGmk && n.gtk == NoGtk then DeriveGtk(n) else n }

  ghost predicate Pair(s: State, a: Mac, b: Mac) {
    a != b && a in s.nodes && b in s.nodes && s.nodes[a].mac == a && s.nodes[b].mac == b
  }

  /** The two contexts between the frames of a handshake with the nonces x and y. */
  function Waiting1(a: Mac, b: Mac, x: Nonce): Ctx { NewCtx(a, b).(counter := 1, aNonce := x, idx := 1) }
  function Waiting2(a: Mac, b: Mac, x: Nonce, y: Nonce): Ctx {
    Derive(NewCtx(b, a).(counter := 1, aNonce := x, sNonce := y, idx := 2), b, a)
  }
  function Waiting3(a: Mac, b: Mac, x: Nonce, y: Nonce): Ctx {
    Derive(NewCtx(a, b).(counter := 2, aNonce := x, sNonce := y, idx := 3), a, b)
  }

  /** A path leads from s to s'. */
  ghost predicate Leads(s: State, s': State, states: seq<State>, steps: seq<Step>) {
    IsPath(states, steps) && states[0] == s && states[|steps|] == s'
  }

  /** Everything that the steps hand to a send callback is sent. */
  ghost predicate AllSent(steps: seq<Step>) { forall t :: t in steps ==> !RefusesSend(t) }

  predicate RefusesSend(t: Step) {
    (HasPeer(t) && !t.DiscoveryResponse? && !t.sent) || (t.DiscoveryRequest? && !t.responded)
  }

  /** No group key is derived for a rekey or distributed. */
  ghost predicate Plain(steps: seq<Step>) { forall t :: t in steps ==> !t.NewGtk? && !t.GroupSend? }

  lemma {:induction false} Then(s: State, s': State, s'': State, states: seq<State>, steps: seq<Step>,
      states': seq<State>, steps': seq<Step>)
    requires Leads(s, s', states, steps) && Leads(s', s'', states', steps')
    ensures Leads(s, s'', states + states'[1..], steps + steps')
    ensures AllSent(steps) && AllSent(steps') ==> AllSent(steps + steps')
    ensures Plain(steps) && Plain(steps') ==> Plain(steps + steps')
  {
    PathsJoin(states, steps, states', steps');
  }

  /** Discovery on both sides, which sends frame 1: a handles the request and b the response. */
  lemma {:induction false} Discover(s: State, a: Mac, b: Mac, x: Nonce)
      returns (s': State, states: seq<State>, steps: seq<Step>)
    requires Pair(s, a, b) && FreshFrom(s, x)
    ensures Leads(s, s', states, steps) && AllSent(steps) && Plain(steps) && |steps| == 2 && Discovered(s, s', a, b, x)
    ensures s'.nodes == s.nodes[a := WithCtx(Ready(s.nodes[a]), b, Waiting1(a, b, x))]
                              [b := WithCtx(s.nodes[b], a, NewCtx(b, a))]
    ensures s'.net == s.net + {Packet(a, b, Frame1(Waiting1(a, b, x)))}
    ensures s'.log == s.log && FreshFrom(s', x + 1)
  {
    steps := [DiscoveryRequest(a, b, x, true, true), DiscoveryResponse(b, a)];
    var s1 := Apply(s, steps[0]);
    s' := Apply(s1, steps[1]);
    states := [s, s1, s'];
    assert Takes(s, steps[0], s1) && Takes(s1, steps[1], s');
    var n1 := WithCtx(Ready(s.nodes[a]), b, NewCtx(a, b));
    assert n1.peers[b := Waiting1(a, b, x)] == Ready(s.nodes[a]).peers[b := Waiting1(a, b, x)];
    assert s'.nodes[a] == WithCtx(Ready(s.nodes[a]), b, Waiting1(a, b, x));
  }

  lemma {:induction false} DeliverFrame1(s: State, a: Mac, b: Mac, x: Nonce, y: Nonce) returns (s': State, step: Step)
    requires Pair(s, a, b) && FreshFrom(s, y) && a in s.nodes[b].peers && s.nodes[b].peers[a] == NewCtx(b, a) && x != 0
    requires Packet(a, b, Frame1(Waiting1(a, b, x))) in s.net
    ensures Leads(s, s', [s, s'], [step]) && AllSent([step])
    ensures step == Deliver(b, a, Frame1(Waiting1(a, b, x)), y, true)
    ensures s'.nodes == s.nodes[b := WithCtx(s.nodes[b], a, Waiting2(a, b, x, y))]
    ensures s'.net == s.net + {Packet(b, a, Frame2(Waiting2(a, b, x, y)))}
    ensures s'.log == s.log && s'.origin == s.origin[y := SNonce(b, a)] && FreshFrom(s', y + 1)
  {
    step := Deliver(b, a, Frame1(Waiting1(a, b, x)), y, true);
    s' := Apply(s, step);
    assert s'.nodes[b] == WithCtx(s.nodes[b], a, Waiting2(a, b, x, y));
  }

  lemma {:induction false} DeliverFrame2(s: State, a: Mac, b: Mac, x: Nonce, y: Nonce, z: Nonce)
      returns (s': State, step: Step)
    requires Pair(s, a, b) && FreshFrom(s, z) && b in s.nodes[a].peers && s.nodes[a].peers[b] == Waiting1(a, b, x)
    requires x != 0 && y != 0 && s.nodes[a].gtk != NoGtk
    requires Packet(b, a, Frame2(Waiting2(a, b, x, y))) in s.net
    ensures Leads(s, s', [s, s'], [step]) && AllSent([step]) && step.Deliver?
    ensures s'.nodes == s.nodes[a := WithCtx(s.nodes[a], b, Waiting3(a, b, x, y))]
    ensures Packet(a, b, Frame3(Waiting3(a, b, x, y), s.nodes[a].gtkId, s.nodes[a].gtk)) in s'.net
    ensures s'.log == s.log && FreshFrom(s', z + 1)
  {
    step := Deliver(a, b, Frame2(Waiting2(a, b, x, y)), z, true);
    s' := Apply(s, step);
    assert s'.nodes[a] == WithCtx(s.nodes[a], b, Waiting3(a, b, x, y));
  }

  lemma {:induction false} DeliverFrame3(s: State, a: Mac, b: Mac, x: Nonce, y: Nonce, id: byte, g: Gtk, z: Nonce,
      sent: bool) returns (s': State, step: Step)
    requires Pair(s, a, b) && FreshFrom(s, z) && a in s.nodes[b].peers && s.nodes[b].peers[a] == Waiting2(a, b, x, y)
    requires Packet(a, b, Frame3(Waiting3(a, b, x, y), id, g)) in s.net && id % 4 != 0
    ensures Leads(s, s', [s, s'], [step]) && (sent ==> AllSent([step])) && step.Deliver?
    ensures b in s'.nodes && s'.nodes == s.nodes[b := s'.nodes[b]] && s'.nodes[b].mac == b
      && s'.nodes[b].hasGmk == s.nodes[b].hasGmk
    ensures sent ==>
              s'.log == s.log + [PtkInstalled(b, a, LinkKey(a, b, x, y), Supplicant), GtkInstalled(b, a, g, id % 4)]
    ensures sent ==> s'.nodes[b].gtk == NoGtk && Packet(b, a, Frame4(Waiting3(a, b, x, y))) in s'.net
    ensures !sent ==> s'.log == s.log && s'.nodes[b].gtk == g && s'.nodes[b].gtkId == id % 4
    ensures FreshFrom(s', z + 1)
  {
    step := Deliver(b, a, Frame3(Waiting3(a, b, x, y), id, g), z, sent);
    s' := Apply(s, step);
  }

  /** The state after a handshake up to frame 3, which b could answer or not. */
  ghost predicate Exchanged(s: State, s': State, a: Mac, b: Mac, x: Nonce, sent: bool)
    requires Pair(s, a, b)
  {
    var n := Ready(s.nodes[a]);
    var c := Waiting3(a, b, x, x + 1);
    && b in s'.nodes && s'.nodes[b].mac == b && s'.nodes[b].hasGmk == s.nodes[b].hasGmk
    && s'.nodes == s.nodes[a := WithCtx(n, b, c)][b := s'.nodes[b]]
    && FreshFrom(s', x + 4) && Answers3(s, s', n, c, a, b, sent)
  }

  /** What b makes of the frame 3 for the context c and the group key of n. */
  ghost predicate Answers3(s: State, s': State, n: Node, c: Ctx, a: Mac, b: Mac, sent: bool)
    requires b in s'.nodes
  {
    if sent then
      && s'.log == s.log + [PtkInstalled(b, a, c.kck, Supplicant), GtkInstalled(b, a, n.gtk, n.gtkId % 4)]
      && s'.nodes[b].gtk == NoGtk && Packet(b, a, Frame4(c)) in s'.net
    else
      s'.log == s.log && s'.nodes[b].gtk == n.gtk && s'.nodes[b].gtkId == n.gtkId % 4
  }

  /** Discovery and frames 1 and 2. */
  lemma {:induction false} FirstHalf(s: State, a: Mac, b: Mac, x: Nonce)
      returns (s': State, states: seq<State>, steps: seq<Step>)
    requires Pair(s, a, b) && FreshFrom(s, x)
    ensures Leads(s, s', states, steps) && AllSent(steps) && Plain(steps)
    ensures a in s'.nodes && s'.nodes[a] == WithCtx(Ready(s.nodes[a]), b, Waiting1(a, b, x))
    ensures b in s'.nodes && s'.nodes[b] == WithCtx(s.nodes[b], a, Waiting2(a, b, x, x + 1))
    ensures s'.nodes == s.nodes[a := s'.nodes[a]][b := s'.nodes[b]]
    ensures Packet(b, a, Frame2(Waiting2(a, b, x, x + 1))) in s'.net && s'.log == s.log && FreshFrom(s', x + 2)
  {
    var s2, ss, ts := Discover(s, a, b, x);
    var d;
    s', d := DeliverFrame1(s2, a, b, x, x + 1);
    assert s'.nodes[a] == s2.nodes[a];
    assert s2.nodes[b].peers[a := Waiting2(a, b, x, x + 1)] == s.nodes[b].peers[a := Waiting2(a, b, x, x + 1)];
    Then(s, s2, s', ss, ts, [s2, s'], [d]);
    states, steps := ss + [s2, s'][1..], ts + [d];
  }

  /** Frames 2 and 3. */
  lemma {:induction false} SecondHalf(s: State, a: Mac, b: Mac, x: Nonce, sent: bool)
      returns (s': State, states: seq<State>, steps: seq<Step>)
    requires Pair(s, a, b) && FreshFrom(s, x + 2) && x != 0 && s.nodes[a].gtk != NoGtk && s.nodes[a].gtkId % 4 != 0
    requires b in s.nodes[a].peers && s.nodes[a].peers[b] == Waiting1(a, b, x)
    requires a in s.nodes[b].peers && s.nodes[b].peers[a] == Waiting2(a, b, x, x + 1)
    requires Packet(b, a, Frame2(Waiting2(a, b, x, x + 1))) in s.net
    ensures Leads(s, s', states, steps) && (sent ==> AllSent(steps)) && Plain(steps)
    ensures var n, c := s.nodes[a], Waiting3(a, b, x, x + 1);
            && b in s'.nodes && s'.nodes[b].mac == b && s'.nodes[b].hasGmk == s.nodes[b].hasGmk
            && s'.nodes == s.nodes[a := WithCtx(n, b, c)][b := s'.nodes[b]] && FreshFrom(s', x + 4)
            && Answers3(s, s', n, c, a, b, sent)
  {
    var n := s.nodes[a];
    var s4, d2 := DeliverFrame2(s, a, b, x, x + 1, x + 2);
    assert s4.nodes[b] == s.nodes[b];
    var d3;
    s', d3 := DeliverFrame3(s4, a, b, x, x + 1, n.gtkId, n.gtk, x + 3, sent);
    Then(s, s4, s', [s, s4], [d2], [s4, s'], [d3]);
    states, steps := [s, s4] + [s4, s'][1..], [d2] + [d3];
  }

  /** From any state in which a has, or can derive, a group key under an id other than 0, a path leads
      from discovery to the delivery of frame 3. */
  lemma {:induction false} Exchange(s: State, a: Mac, b: Mac, x: Nonce, sent: bool)
      returns (s': State, states: seq<State>, steps: seq<Step>)
    requires Pair(s, a, b) && FreshFrom(s, x) && Ready(s.nodes[a]).gtk != NoGtk && Ready(s.nodes[a]).gtkId % 4 != 0
    ensures Leads(s, s', states, steps) && Exchanged(s, s', a, b, x, sent) && (sent ==> AllSent(steps)) && Plain(steps)
  {
    var n, c := Ready(s.nodes[a]), Waiting3(a, b, x, x + 1);
    var s3, ss, ts := FirstHalf(s, a, b, x);
    var us, vs;
    s', us, vs := SecondHalf(s3, a, b, x, sent);
    assert n.peers[b := Waiting1(a, b, x)][b := c] == n.peers[b := c];
    Then(s, s3, s', ss, ts, us, vs);
    states, steps := ss + us[1..], ts + vs;
  }

  lemma {:induction false} DeliverFrame4(s: State, a: Mac, b: Mac, x: Nonce, y: Nonce, z: Nonce)
      returns (s': State, step: Step)
    requires Pair(s, a, b) && FreshFrom(s, z) && b in s.nodes[a].peers && s.nodes[a].peers[b] == Waiting3(a, b, x, y)
    requires Packet(b, a, Frame4(Waiting3(a, b, x, y))) in s.net
    ensures Leads(s, s', [s, s'], [step])
    ensures s'.log == s.log + [PtkInstalled(a, b, LinkKey(a, b, x, y), Authenticator)]
  {
    step := Deliver(a, b, Frame4(Waiting3(a, b, x, y)), z, true);
    s' := Apply(s, step);
  }

  /** From any state in which a has, or can derive, a group key under an id other than 0, discovery followed
      by a handshake without losses ends with the same pairwise key on both sides and a's group key on b. */
  lemma {:induction false} HandshakeCompletes(s: State, a: Mac, b: Mac, x: Nonce)
      returns (s': State, states: seq<State>, steps: seq<Step>)
    requires Pair(s, a, b) && FreshFrom(s, x) && Ready(s.nodes[a]).gtk != NoGtk && Ready(s.nodes[a]).gtkId % 4 != 0
    ensures Leads(s, s', states, steps)
    ensures var n, k := Ready(s.nodes[a]), LinkKey(a, b, x, x + 1);
            s'.log == s.log + [PtkInstalled(b, a, k, Supplicant), GtkInstalled(b, a, n.gtk, n.gtkId % 4),
                PtkInstalled(a, b, k, Authenticator)]
  {
    var s5, ss, ts := Exchange(s, a, b, x, true);
    assert s5.nodes[a] == WithCtx(Ready(s.nodes[a]), b, Waiting3(a, b, x, x + 1));
    var s6, d := DeliverFrame4(s5, a, b, x, x + 1, x + 4);
    Then(s, s5, s6, ss, ts, [s5, s6], [d]);
    s', states, steps := s6, ss + [s5, s6][1..], ts + [d];
  }

  // -- A replayed frame 1 ---------------------------------------------------------------------------

  /** No frame 3 was sent for the ANonce of a frame 1 that is not answered yet. */
  lemma {:induction false} NotYetFrame3(s: State, a: Mac, b: Mac, x: Nonce)
    requires Inv(s) && a in s.nodes && b in s.nodes[a].peers && s.nodes[a].peers[b] == Waiting1(a, b, x)
    requires Packet(a, b, Frame1(Waiting1(a, b, x))) in s.net
    ensures NoFrame3(s.net, a, b, x) && Own(s.origin, a, b, x)
  {
    assert CtxInv(s.origin, s.net, a, b, s.nodes[a].peers[b]);
    assert FrameInv(s.origin, s.net, s.log, a, b, Frame1(Waiting1(a, b, x)));
    forall f | Packet(a, b, f) in s.net && IsFrame3(f) ensures f.body.nonce != x {
      assert FrameInv(s.origin, s.net, s.log, a, b, f);
    }
  }

  lemma {:induction false} PathKeepsInv(states: seq<State>, steps: seq<Step>, i: nat)
    requires IsPath(states, steps) && Inv(states[0]) && i < |states|
    ensures Inv(states[i])
  {
    if i > 0 {
      PathKeepsInv(states, steps, i - 1);
      assert Takes(states[i - 1], steps[i - 1], states[i]);
      StepKeepsInv(states[i - 1], steps[i - 1], states[i]);
    }
  }

  /** A genuine frame 1 arrives at a supplicant that has answered another one. */
  lemma {:induction false} Frame1Dropped(s: State, a: Mac, b: Mac, x: Nonce, y: Nonce, z: Nonce, rnd: Nonce)
      returns (s': State, step: Step)
    requires Pair(s, a, b) && FreshFrom(s, rnd) && a in s.nodes[b].peers && s.nodes[b].peers[a] == Waiting2(a, b, x, y)
    requires Packet(a, b, Frame1(Waiting1(a, b, z))) in s.net
    ensures Leads(s, s', [s, s'], [step]) && step == Deliver(b, a, Frame1(Waiting1(a, b, z)), rnd, true)
    ensures !TakesEffect(s, step) && s'.nodes == s.nodes && s'.net == s.net
    ensures s'.origin == s.origin[rnd := SNonce(b, a)]
  {
    step := Deliver(b, a, Frame1(Waiting1(a, b, z)), rnd, true);
    s' := Apply(s, step);
    EffectIff(s.nodes[b], step);
    assert s'.nodes[b] == s.nodes[b];
  }

  lemma {:induction false} Frame1TakesEffect(s: State, a: Mac, b: Mac, x: Nonce, y: Nonce)
    requires Pair(s, a, b) && FreshFrom(s, y) && a in s.nodes[b].peers && s.nodes[b].peers[a] == NewCtx(b, a)
    requires Packet(a, b, Frame1(Waiting1(a, b, x))) in s.net
    ensures TakesEffect(s, Deliver(b, a, Frame1(Waiting1(a, b, x)), y, true))
  {
    EffectIff(s.nodes[b], Deliver(b, a, Frame1(Waiting1(a, b, x)), y, true));
  }

  /** From any state of a run: a frame 1 that b has answered, kept back until both sides have gone through discovery
      again, takes effect a second time; the frame 1 of the second discovery is then dropped, and b is stuck. */
  lemma {:induction false} ReplayedFrame1(s: State, a: Mac, b: Mac, x: Nonce)
      returns (s2: State, s3: State, s5: State, s6: State, s7: State)
    requires Inv(s) && Pair(s, a, b) && FreshFrom(s, x)
    ensures Discovered(s, s2, a, b, x) && Discovered(s3, s5, a, b, x + 2)
    ensures var old1 := Frame1(Waiting1(a, b, x));
            var new1 := Frame1(Waiting1(a, b, x + 2));
            && Takes(s2, Deliver(b, a, old1, x + 1, true), s3) && TakesEffect(s2, Deliver(b, a, old1, x + 1, true))
            && Takes(s5, Deliver(b, a, old1, x + 3, true), s6) && TakesEffect(s5, Deliver(b, a, old1, x + 3, true))
            && Takes(s6, Deliver(b, a, new1, x + 4, true), s7) && !TakesEffect(s6, Deliver(b, a, new1, x + 4, true))
    ensures Stuck(s7, a, b, x)
  {
    var ss, ts;
    s2, ss, ts := Discover(s, a, b, x);
    PathKeepsInv(ss, ts, 2);
    Frame1TakesEffect(s2, a, b, x, x + 1);
    var d;
    s3, d := DeliverFrame1(s2, a, b, x, x + 1);
    assert Takes([s2, s3][0], [d][0], [s2, s3][1]);
    StepKeepsInv(s2, d, s3);
    NotYetFrame3(s3, a, b, x);
    s5 := Rediscover(s3, a, b, x);
    Frame1TakesEffect(s5, a, b, x, x + 3);
    s6, s7 := WrongOrder(s5, a, b, x);
  }

  /** The second discovery keeps what is known of the first frame 1. */
  lemma {:induction false} Rediscover(s3: State, a: Mac, b: Mac, x: Nonce) returns (s5: State)
    requires Inv(s3) && Pair(s3, a, b) && FreshFrom(s3, x + 2) && NoFrame3(s3.net, a, b, x) && Own(s3.origin, a, b, x)
    requires Packet(a, b, Frame1(Waiting1(a, b, x))) in s3.net
    ensures Discovered(s3, s5, a, b, x + 2)
    ensures Inv(s5) && Pair(s5, a, b) && FreshFrom(s5, x + 3) && NoFrame3(s5.net, a, b, x) && Own(s5.origin, a, b, x)
    ensures s3.net <= s5.net && Packet(a, b, Frame1(Waiting1(a, b, x + 2))) in s5.net
    ensures b in s5.nodes[a].peers && s5.nodes[a].peers[b] == Waiting1(a, b, x + 2)
    ensures a in s5.nodes[b].peers && s5.nodes[b].peers[a] == NewCtx(b, a)
  {
    var ss, ts;
    s5, ss, ts := Discover(s3, a, b, x + 2);
    PathKeepsInv(ss, ts, 2);
    PathExtends(ss, ts, 2);
  }

  /** The old frame 1 comes before the new one. */
  lemma {:induction false} WrongOrder(s5: State, a: Mac, b: Mac, x: Nonce) returns (s6: State, s7: State)
    requires Pair(s5, a, b) && FreshFrom(s5, x + 3) && NoFrame3(s5.net, a, b, x) && Own(s5.origin, a, b, x)
    requires Packet(a, b, Frame1(Waiting1(a, b, x))) in s5.net && x != 0
    requires Packet(a, b, Frame1(Waiting1(a, b, x + 2))) in s5.net
    requires b in s5.nodes[a].peers && s5.nodes[a].peers[b] == Waiting1(a, b, x + 2)
    requires a in s5.nodes[b].peers && s5.nodes[b].peers[a] == NewCtx(b, a)
    ensures Takes(s5, Deliver(b, a, Frame1(Waiting1(a, b, x)), x + 3, true), s6)
    ensures Takes(s6, Deliver(b, a, Frame1(Waiting1(a, b, x + 2)), x + 4, true), s7)
    ensures !TakesEffect(s6, Deliver(b, a, Frame1(Waiting1(a, b, x + 2)), x + 4, true))
    ensures Stuck(s7, a, b, x)
  {
    var d, e;
    s6, d := DeliverFrame1(s5, a, b, x, x + 3);
    assert Takes([s5, s6][0], [d][0], [s5, s6][1]);
    assert s6.nodes[a] == s5.nodes[a];
    s7, e := Frame1Dropped(s6, a, b, x, x + 3, x + 2, x + 4);
    assert Takes([s6, s7][0], [e][0], [s6, s7][1]);
  }

  lemma {:induction false} PathExtends(states: seq<State>, steps: seq<Step>, i: nat)
    requires IsPath(states, steps) && Inv(states[0]) && i < |states|
    ensures Extends(states[0].origin, states[i].origin)
  {
    if i > 0 {
      PathExtends(states, steps, i - 1);
      PathKeepsInv(states, steps, i - 1);
      assert Takes(states[i - 1], steps[i - 1], states[i]);
      StepExtends(states[i - 1], steps[i - 1], states[i]);
    }
  }

  /** Node a handles a discovery request and b the response. */
  ghost predicate Discovered(s: State, s': State, a: Mac, b: Mac, x: Nonce) {
    exists s1 :: Takes(s, DiscoveryRequest(a, b, x, true, true), s1) && Takes(s1, DiscoveryResponse(b, a), s')
  }

  // -- A refused frame 4 ----------------------------------------------------------------------------

  function Blank(mac: Mac, hasGmk: bool): Node { Node(mac, hasGmk, NoGtk, 0, 0, 0, map[]) }

  /** All nonces from some number on are still to be drawn. */
  lemma {:induction false} FreshExists(drawn: set<Nonce>) returns (x: Nonce)
    ensures x != 0 && forall y: Nonce :: y >= x ==> y !in drawn
  {
    x := 1;
    if drawn != {} {
      var d :| d in drawn;
      x := FreshExists(drawn - {d});
      if x <= d { x := d + 1; }
      forall y: Nonce | y >= x ensures y !in drawn {
        assert y !in drawn - {d};
      }
    }
  }

  /** What a state keeps while node a distributes a group key. */
  ghost predicate OnlySends(s: State, s': State, a: Mac) {
    && a in s.nodes && a in s'.nodes && s'.nodes == s.nodes[a := s'.nodes[a]]
    && s'.origin == s.origin && s'.log == s.log
    && s'.nodes[a].peers.Keys == s.nodes[a].peers.Keys && s'.nodes[a].mac == s.nodes[a].mac == a
    && s'.nodes[a].hasGmk == s.nodes[a].hasGmk
  }

  lemma {:induction false} OnlySendsOn(s: State, s': State, s'': State, a: Mac)
    requires OnlySends(s, s', a) && OnlySends(s', s'', a)
    ensures OnlySends(s, s'', a)
  {
  }

  /** The node keeps its group key as well. */
  ghost predicate SameKey(n: Node, n': Node) { n' == n.(peers := n'.peers) }

  predicate Succeeds(s: State, step: Step) {
    step.GroupSend? && step.at in s.nodes && SendGroup(s.nodes[step.at], step.peer, step.sent).ok
  }

  /** Sends to the peers in turn, up to and including the first that fails. */
  ghost predicate SendsUntil(states: seq<State>, steps: seq<Step>, a: Mac, order: seq<Mac>, k: nat)
    requires |states| == |steps| + 1
  {
    && k <= |order| && k <= |steps|
    && (forall l :: 0 <= l < k ==> steps[l].GroupSend? && steps[l].at == a && steps[l].peer == order[l])
    && (forall l :: 0 <= l < k - 1 ==> Succeeds(states[l], steps[l]))
    && (k < |order| ==> k > 0 && !Succeeds(states[k - 1], steps[k - 1]))
  }

  lemma {:induction false} SendOne(s: State, a: Mac, p: Mac) returns (s': State, step: Step)
    requires a in s.nodes && s.nodes[a].mac == a && p in s.nodes[a].peers && p != a
    ensures Leads(s, s', [s, s'], [step]) && step == GroupSend(a, p, true)
    ensures OnlySends(s, s', a) && SameKey(s.nodes[a], s'.nodes[a])
  {
    step := GroupSend(a, p, true);
    s' := Apply(s, step);
  }

  /** The path is the distribution of a's group key to the peers in the given order. */
  ghost predicate Distributes(s: State, s': State, states: seq<State>, steps: seq<Step>, a: Mac, order: seq<Mac>) {
    && Leads(s, s', states, steps) && AllSent(steps) && SendsUntil(states, steps, a, order, |steps|)
    && OnlySends(s, s', a) && SameKey(s.nodes[a], s'.nodes[a])
  }

  lemma {:induction false} SendOut(s: State, a: Mac, order: seq<Mac>)
      returns (s': State, states: seq<State>, steps: seq<Step>)
    requires a in s.nodes && s.nodes[a].mac == a && forall p :: p in order ==> p in s.nodes[a].peers && p != a
    ensures Distributes(s, s', states, steps, a, order)
    decreases |order|
  {
    if order == [] {
      s', states, steps := s, [s], [];
    } else {
      assert order[0] in order;
      var s1, step := SendOne(s, a, order[0]);
      if !Succeeds(s, step) {
        s', states, steps := s1, [s, s1], [step];
      } else {
        assert forall p :: p in order[1..] ==> p in order && p in s1.nodes[a].peers.Keys;
        var ss, ts;
        s', ss, ts := SendOut(s1, a, order[1..]);
        SendMore(s, step, s1, s', ss, ts, a, order);
        states, steps := [s, s1] + ss[1..], [step] + ts;
      }
    }
  }

  lemma {:induction false} SendMore(s: State, step: Step, s1: State, s': State, ss: seq<State>, ts: seq<Step>, a: Mac,
      order: seq<Mac>)
    requires Leads(s, s1, [s, s1], [step]) && OnlySends(s, s1, a) && SameKey(s.nodes[a], s1.nodes[a])
    requires order != [] && Succeeds(s, step) && step == GroupSend(a, order[0], true)
    requires Distributes(s1, s', ss, ts, a, order[1..])
    ensures Distributes(s, s', [s, s1] + ss[1..], [step] + ts, a, order)
  {
    Then(s, s1, s', [s, s1], [step], ss, ts);
    SendsFirst(s, step, ss, ts, a, order);
    OnlySendsOn(s, s1, s', a);
  }

  lemma {:induction false} SendsFirst(s: State, step: Step, ss: seq<State>, ts: seq<Step>, a: Mac, order: seq<Mac>)
    requires |ss| == |ts| + 1 && order != [] && Succeeds(s, step) && step == GroupSend(a, order[0], true)
    requires SendsUntil(ss, ts, a, order[1..], |ts|)
    ensures SendsUntil([s, ss[0]] + ss[1..], [step] + ts, a, order, 1 + |ts|)
  {
    var states, steps := [s, ss[0]] + ss[1..], [step] + ts;
    forall l | 0 <= l < |steps|
      ensures steps[l].GroupSend? && steps[l].at == a && steps[l].peer == order[l]
      ensures l < |steps| - 1 ==> Succeeds(states[l], steps[l])
    {
      if l > 0 { assert steps[l] == ts[l - 1] && states[l] == ss[l - 1]; }
    }
    if |steps| < |order| { assert steps[|ts|] == ts[|ts| - 1] && states[|ts|] == ss[|ts| - 1]; }
  }

  /** The k + 1 steps from m on are one call of rekey_1905_layer_gtk: a new key, and then a send to each peer in the
      order of the map, up to and including the first that fails. */
  ghost predicate RekeyCall(states: seq<State>, steps: seq<Step>, m: nat, k: nat)
    requires |states| == |steps| + 1
  {
    && m + k < |steps| && steps[m].NewGtk? && steps[m].at in states[m].nodes
    && var n := states[m].nodes[steps[m].at];
       if !n.hasGmk then k == 0 else
       exists order :: EncryptLayer.IsOrder(order, n.peers)
                       && SendsUntil(states[m + 1..], steps[m + 1..], steps[m].at, order, k)
  }

  /** From the given step on, group keys are derived for a rekey and distributed in whole calls only. */
  ghost predicate WholeCalls(states: seq<State>, steps: seq<Step>, first: nat)
    requires |states| == |steps| + 1
  {
    forall i :: first <= i < |steps| && (steps[i].NewGtk? || steps[i].GroupSend?) ==> InCall(states, steps, first, i)
  }

  lemma {:induction false} CallShifts(states: seq<State>, steps: seq<Step>, m: nat, k: nat, ss: seq<State>,
      ts: seq<Step>, d: nat)
    requires |states| == |steps| + 1 && |ss| == |ts| + 1 && d + |steps| <= |ts| && RekeyCall(states, steps, m, k)
    requires ss[d..d + |states|] == states && ts[d..d + |steps|] == steps
    ensures RekeyCall(ss, ts, d + m, k)
  {
    assert ss[d..d + |states|][m] == ss[d + m] && ts[d..d + |steps|][m] == ts[d + m];
    if states[m].nodes[steps[m].at].hasGmk {
      var a := steps[m].at;
      var order :| EncryptLayer.IsOrder(order, states[m].nodes[a].peers)
                   && SendsUntil(states[m + 1..], steps[m + 1..], a, order, k);
      var us, vs := ss[d + m + 1..], ts[d + m + 1..];
      forall l | 0 <= l < k ensures us[l] == states[m + 1..][l] && vs[l] == steps[m + 1..][l] {
        assert ss[d..d + |states|][m + 1 + l] == us[l] && ts[d..d + |steps|][m + 1 + l] == vs[l];
      }
      assert SendsUntil(us, vs, a, order, k);
    }
  }

  /** Step i belongs to a call. */
  ghost predicate InCall(states: seq<State>, steps: seq<Step>, first: nat, i: nat)
    requires |states| == |steps| + 1
  {
    exists m: nat, k: nat :: first <= m <= i <= m + k && RekeyCall(states, steps, m, k)
  }

  lemma {:induction false} InCallShifts(states: seq<State>, steps: seq<Step>, first: nat, i: nat, ss: seq<State>,
      ts: seq<Step>, d: nat)
    requires |states| == |steps| + 1 && |ss| == |ts| + 1 && d + |steps| <= |ts| && InCall(states, steps, first, i)
    requires ss[d..d + |states|] == states && ts[d..d + |steps|] == steps
    ensures InCall(ss, ts, d + first, d + i)
  {
    var m: nat, k: nat :| first <= m <= i <= m + k && RekeyCall(states, steps, m, k);
    CallShifts(states, steps, m, k, ss, ts, d);
  }

  lemma {:induction false} CallsJoin(states: seq<State>, steps: seq<Step>, first: nat, states': seq<State>,
      steps': seq<Step>)
    requires |states| == |steps| + 1 && |states'| == |steps'| + 1 && states[|steps|] == states'[0] && first <= |steps|
    requires WholeCalls(states, steps, first) && WholeCalls(states', steps', 0)
    ensures WholeCalls(states + states'[1..], steps + steps', first)
  {
    var ss, ts, d := states + states'[1..], steps + steps', |steps|;
    assert ss[0..0 + |states|] == states && ts[0..0 + |steps|] == steps;
    assert ss[d..d + |states'|] == states' && ts[d..d + |steps'|] == steps';
    forall i | first <= i < |ts| && (ts[i].NewGtk? || ts[i].GroupSend?) ensures InCall(ss, ts, first, i) {
      if i < d {
        InCallShifts(states, steps, first, i, ss, ts, 0);
      } else {
        InCallShifts(states', steps', 0, i - d, ss, ts, d);
        Earlier(ss, ts, first, d, i);
      }
    }
  }

  lemma {:induction false} Earlier(states: seq<State>, steps: seq<Step>, first: nat, d: nat, i: nat)
    requires |states| == |steps| + 1 && first <= d && InCall(states, steps, d, i)
    ensures InCall(states, steps, first, i)
  {
  }

  lemma {:induction false} OrderExists(keys: set<Mac>) returns (order: seq<Mac>)
    ensures forall i, j :: 0 <= i < j < |order| ==> order[i] != order[j]
    ensures forall p :: p in order <==> p in keys
  {
    order := [];
    if keys != {} {
      var p :| p in keys;
      var rest := OrderExists(keys - {p});
      order := [p] + rest;
      forall i, j | 0 <= i < j < |order| ensures order[i] != order[j] { assert rest[j - 1] in rest; }
    }
  }

  /** A whole call of rekey_1905_layer_gtk with all sends accepted. */
  lemma {:induction false} RekeyGroup(s: State, a: Mac) returns (s': State, states: seq<State>, steps: seq<Step>)
    requires a in s.nodes && s.nodes[a].hasGmk && s.nodes[a].mac == a && a !in s.nodes[a].peers
    ensures Leads(s, s', states, steps) && AllSent(steps) && WholeCalls(states, steps, 0)
    ensures OnlySends(s, s', a) && SameKey(RekeyGtk(s.nodes[a]), s'.nodes[a])
  {
    var order := OrderExists(s.nodes[a].peers.Keys);
    var s1 := DeriveOne(s, a);
    var s2, ss, ts := SendOut(s1, a, order);
    Then(s, s1, s2, [s, s1], [NewGtk(a)], ss, ts);
    OneCall(s, s1, a, order, ss, ts);
    OnlySendsOn(s, s1, s2, a);
    s', states, steps := s2, [s, s1] + ss[1..], [NewGtk(a)] + ts;
  }

  lemma {:induction false} DeriveOne(s: State, a: Mac) returns (s1: State)
    requires a in s.nodes && s.nodes[a].hasGmk && s.nodes[a].mac == a
    ensures Leads(s, s1, [s, s1], [NewGtk(a)]) && AllSent([NewGtk(a)]) && OnlySends(s, s1, a)
    ensures s1.nodes[a] == RekeyGtk(s.nodes[a])
  {
    s1 := Apply(s, NewGtk(a));
  }

  lemma {:induction false} OneCall(s: State, s1: State, a: Mac, order: seq<Mac>, ss: seq<State>, ts: seq<Step>)
    requires a in s.nodes && s.nodes[a].hasGmk && EncryptLayer.IsOrder(order, s.nodes[a].peers)
    requires |ss| == |ts| + 1 && ss[0] == s1 && SendsUntil(ss, ts, a, order, |ts|)
    ensures WholeCalls([s, s1] + ss[1..], [NewGtk(a)] + ts, 0)
  {
    var states, steps := [s, s1] + ss[1..], [NewGtk(a)] + ts;
    assert states[0 + 1..] == ss && steps[0 + 1..] == ts;
    assert RekeyCall(states, steps, 0, |ts|);
    forall i | 0 <= i < |steps| ensures InCall(states, steps, 0, i) {
      assert 0 <= 0 <= i <= 0 + |ts|;
    }
  }

  lemma {:induction false} TwoKeys(n: Node, n1: Node, n2: Node)
    requires n.hasGmk && SameKey(RekeyGtk(n), n1) && SameKey(RekeyGtk(n1), n2)
    ensures n2.gtk == Gtk(n.mac, n.derived + 2) && 1 <= n2.gtkId <= 3
  {
  }

  /** A key two generations ahead of all others, under an id that can be sent. */
  lemma {:induction false} RekeyTwice(s: State, ctrl: Mac) returns (s': State, states: seq<State>, steps: seq<Step>)
    requires ctrl in s.nodes && s.nodes[ctrl].hasGmk && s.nodes[ctrl].mac == ctrl && ctrl !in s.nodes[ctrl].peers
    ensures Leads(s, s', states, steps) && AllSent(steps) && WholeCalls(states, steps, 0) && OnlySends(s, s', ctrl)
    ensures s'.nodes[ctrl].gtk == Gtk(ctrl, s.nodes[ctrl].derived + 2) && 1 <= s'.nodes[ctrl].gtkId <= 3
  {
    var s1, ss, ts := RekeyGroup(s, ctrl);
    var s2, us, vs := RekeyGroup(s1, ctrl);
    Then(s, s1, s2, ss, ts, us, vs);
    CallsJoin(ss, ts, 0, us, vs);
    OnlySendsOn(s, s1, s2, ctrl);
    TwoKeys(s.nodes[ctrl], s1.nodes[ctrl], s2.nodes[ctrl]);
    s', states, steps := s2, ss + us[1..], ts + vs;
  }

  /** From a state in which an agent holds a group key, two rekeys and two handshakes make a third node install the
      newest key and then the agent's. */
  lemma {:induction false} HandedOn(s: State, ctrl: Mac, a: Mac, b: Mac)
      returns (s': State, states: seq<State>, steps: seq<Step>)
    requires Pair(s, ctrl, b) && Pair(s, a, b) && a != ctrl && s.nodes[ctrl].hasGmk && !s.nodes[a].hasGmk
    requires ctrl !in s.nodes[ctrl].peers
    requires s.nodes[a].gtk.Gtk? && s.nodes[a].gtk.serial <= s.nodes[ctrl].derived && 1 <= s.nodes[a].gtkId <= 3
    ensures Leads(s, s', states, steps) && AllSent(steps) && WholeCalls(states, steps, 0) && !GtkOrder(s'.log)
  {
    var x := FreshExists(s.origin.Keys);
    var s1, ss1, ts1 := RekeyTwice(s, ctrl);
    assert s1.nodes[a] == s.nodes[a] && s1.nodes[b] == s.nodes[b] && FreshFrom(s1, x);
    var s2, ss2, ts2 := Exchange(s1, ctrl, b, x, true);
    assert s2.nodes[a] == s.nodes[a];
    var s3, ss3, ts3 := Exchange(s2, a, b, x + 4, true);
    var k := |s.log|;
    assert s3.log[k + 1] == GtkInstalled(b, ctrl, s1.nodes[ctrl].gtk, s1.nodes[ctrl].gtkId % 4);
    assert s3.log[k + 3] == GtkInstalled(b, a, s.nodes[a].gtk, s.nodes[a].gtkId % 4);
    assert !InOrder(s3.log[k + 1], s3.log[k + 3]);
    Then(s, s1, s2, ss1, ts1, ss2, ts2);
    CallsJoin(ss1, ts1, 0, ss2, ts2);
    Then(s, s2, s3, ss1 + ss2[1..], ts1 + ts2, ss3, ts3);
    CallsJoin(ss1 + ss2[1..], ts1 + ts2, 0, ss3, ts3);
    s', states, steps := s3, ss1 + ss2[1..] + ss3[1..], ts1 + ts2 + ts3;
  }

  lemma {:induction false} NotOwnPeer(s: State, a: Mac)
    requires Inv(s) && a in s.nodes
    ensures a !in s.nodes[a].peers
  {
    assert forall b :: b in s.nodes[a].peers ==> CtxInv(s.origin, s.net, a, b, s.nodes[a].peers[b]);
  }

  /** One controller, which has a GMK. */
  ghost predicate OneController(s: State, ctrl: Mac) {
    ctrl in s.nodes && forall a :: a in s.nodes ==> (s.nodes[a].hasGmk <==> a == ctrl)
  }

  /** In every run with one controller: once an agent holds a group key, and there is a third node, some continuation in
      which every send is accepted and every GTK rekey runs to its end makes that node replace a group key by an older
      one. */
  lemma {:induction false} HeldKeyBreaksOrder(states: seq<State>, steps: seq<Step>, ctrl: Mac, a: Mac, b: Mac)
    returns (states': seq<State>, steps': seq<Step>)
    requires IsRun(states, steps) && OneController(states[0], ctrl)
    requires var s := states[|steps|];
             a in s.nodes && b in s.nodes && a != ctrl && b != ctrl && a != b && s.nodes[a].gtk != NoGtk
    ensures IsRun(states', steps') && states <= states' && steps <= steps' && AllSent(steps'[|steps|..])
    ensures WholeCalls(states', steps', |steps|) && (Plain(steps) ==> WholeCalls(states', steps', 0))
    ensures !GtkOrder(states'[|steps'|].log)
  {
    var s := states[|steps|];
    RunKeepsInv(states, steps, |steps|);
    InstalledGtksAreGenuine(states, steps, |steps|);
    GmkKept(states, steps, ctrl, |steps|);
    HeldGtkIdInRange(states, steps, |steps|, a);
    NotOwnPeer(s, ctrl);
    var s', ss, ts := HandedOn(s, ctrl, a, b);
    PathsJoin(states, steps, ss, ts);
    CallsJoin(states, steps, |steps|, ss, ts);
    if Plain(steps) { CallsJoin(states, steps, 0, ss, ts); }
    states', steps' := states + ss[1..], steps + ts;
    assert steps'[|steps|..] == ts;
  }

  lemma {:induction false} GmkKept(states: seq<State>, steps: seq<Step>, ctrl: Mac, i: nat)
    requires IsRun(states, steps) && i < |states| && OneController(states[0], ctrl)
    ensures OneController(states[i], ctrl)
  {
    if i > 0 {
      GmkKept(states, steps, ctrl, i - 1);
      var s, step, s' := states[i - 1], steps[i - 1], states[i];
      assert Takes(s, step, s');
      ReactGtk(s.nodes[step.at], step);
      assert s'.nodes == s.nodes[step.at := React(s.nodes[step.at], step).node];
    }
  }

  /** What the guard of GroupKey.GtkNeverOlder is worth.  In every run with one controller without a lost frame 4 so
      far, and a third node: all continuations of one more step that lose no frame 4 after it, and whose GTK rekeys run
      to their end, keep the group keys in order, exactly when the step itself does not lose one. */
  lemma {:induction false} OrderIffNoLoss(states: seq<State>, steps: seq<Step>, step: Step, ctrl: Mac, b: Mac)
    requires IsRun(states, steps) && OneController(states[0], ctrl) && NoLoss(states, steps, 0)
    requires var s := states[|steps|];
             Enabled(s, step) && b in s.nodes && b != ctrl && b != step.at
    ensures KeepsOrder(states + [Apply(states[|steps|], step)], steps + [step]) <==> !LosesFrame4(states[|steps|], step)
  {
    var s := states[|steps|];
    var states1, steps1 := states + [Apply(s, step)], steps + [step];
    RunExtends(states, steps, step);
    if LosesFrame4(s, step) {
      LossIsHeld(states, steps, step, ctrl);
      var states', steps' := HeldKeyBreaksOrder(states1, steps1, ctrl, step.at, b);
      forall k | |steps1| <= k < |steps'| ensures !LosesFrame4(states'[k], steps'[k]) {
        assert steps'[k] == steps'[|steps1|..][k - |steps1|] && !RefusesSend(steps'[k]);
      }
      assert NoLoss(states', steps', |steps1|);
    } else {
      forall states': seq<State>, steps': seq<Step> | Continues(states1, steps1, states', steps')
          && NoLoss(states', steps', |steps1|) && WholeCalls(states', steps', |steps1|)
        ensures GtkOrder(states'[|steps'|].log)
      {
        forall k | 0 <= k < |steps'| ensures !LosesFrame4(states'[k], steps'[k]) {
          if k < |steps| {
            assert states'[k] == states[k] && steps'[k] == steps[k];
            assert !LosesFrame4(states[k], steps[k]);
          } else if k == |steps| {
            assert states'[k] == s && steps'[k] == step;
          }
        }
        assert states'[0] == states1[0] == states[0];
        GtkNeverOlder(states', steps', ctrl, |steps'|);
      }
    }
  }

  ghost predicate Continues(states: seq<State>, steps: seq<Step>, states': seq<State>, steps': seq<Step>) {
    IsRun(states', steps') && states <= states' && steps <= steps'
  }

  /** Every continuation that loses no frame 4, and whose GTK rekeys run to their end, keeps the group keys in order. */
  ghost predicate KeepsOrder(states: seq<State>, steps: seq<Step>) {
    forall states': seq<State>, steps': seq<Step> ::
      Continues(states, steps, states', steps') && NoLoss(states', steps', |steps|)
      && WholeCalls(states', steps', |steps|) ==>
      GtkOrder(states'[|steps'|].log)
  }

  lemma {:induction false} RunExtends(states: seq<State>, steps: seq<Step>, step: Step)
    requires IsRun(states, steps) && Enabled(states[|steps|], step)
    ensures IsRun(states + [Apply(states[|steps|], step)], steps + [step])
  {
    var s := states[|steps|];
    var s' := Apply(s, step);
    assert Takes([s, s'][0], [step][0], [s, s'][1]);
    PathsJoin(states, steps, [s, s'], [step]);
    assert [s, s'][1..] == [s'];
  }

  lemma {:induction false} LossIsHeld(states: seq<State>, steps: seq<Step>, step: Step, ctrl: Mac)
    requires IsRun(states, steps) && OneController(states[0], ctrl) && NoLoss(states, steps, 0)
    requires LosesFrame4(states[|steps|], step)
    ensures var s' := Apply(states[|steps|], step);
            step.at != ctrl && step.at in s'.nodes && s'.nodes[step.at].gtk != NoGtk
  {
    var s := states[|steps|];
    RunKeepsInv(states, steps, |steps|);
    InstalledGtksAreGenuine(states, steps, |steps|);
    GtkNeverOlder(states, steps, ctrl, |steps|);
    assert Packet(step.peer, step.at, step.frame) in s.net;
    AgentReact(s, step);
  }

  /** The shortest such story: agent 2 cannot send its frame 4, keeps the first group key, and hands it to agent 3,
      which had installed a later one. */
  lemma {:induction false} OlderGtkAfterLostFrame4() returns (states: seq<State>, steps: seq<Step>)
    ensures IsRun(states, steps) && OneController(states[0], 1) && WholeCalls(states, steps, 0)
    ensures !GtkOrder(states[|steps|].log)
  {
    var s := State(map[1 := Blank(1, true), 2 := Blank(2, false), 3 := Blank(3, false)], {}, map[], []);
    var s1, ss, ts := Exchange(s, 1, 2, 1, false);
    assert Init(s) && s1.nodes[2].gtk == Gtk(1, 1);
    states, steps := HeldKeyBreaksOrder(ss, ts, 1, 2, 3);
  }
}
