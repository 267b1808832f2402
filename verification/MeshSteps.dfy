/** Each kind of step of a mesh keeps the invariant of the link it acts on. */
module MeshSteps {
  import opened Base
  import opened Eapol
  import opened Mesh
  import opened MeshProof

  /** Node a reacts to its peer b: the premises shared by the lemmas below. */
  ghost predicate Acts(s: State, o': map<Nonce, Origin>, a: Mac, b: Mac) {
    Inv(s) && a in s.nodes && a != b && Extends(s.origin, o')
  }

  /** The two views of a node differ, as far as its peers go, in the context of b only. */
  ghost predicate OnlyPeer(n: Node, n': Node, b: Mac) {
    n'.mac == n.mac && forall x :: x in n'.peers && x != b ==> x in n.peers && n'.peers[x] == n.peers[x]
  }

  /** A reaction that sends nothing has only its context to account for. */
  lemma {:induction false} Quiet(s: State, o': map<Nonce, Origin>, a: Mac, b: Mac, r: Reaction)
    requires Acts(s, o', a, b) && r.out == None
    requires OnlyPeer(s.nodes[a], r.node, b)
    requires b in r.node.peers ==> CtxInv(o', s.net, a, b, r.node.peers[b])
    ensures Inv(Commit(s, a, b, r, o'))
  {
    Grow(s, Commit(s, a, b, r, o'), a, b, r.out);
  }

  /** A reaction that sends a frame. */
  lemma {:induction false} Speaks(s: State, o': map<Nonce, Origin>, a: Mac, b: Mac, r: Reaction)
    requires Acts(s, o', a, b) && r.out.Some?
    requires OnlyPeer(s.nodes[a], r.node, b)
    requires b in r.node.peers && CtxInv(o', s.net + {Packet(a, b, r.out.value)}, a, b, r.node.peers[b])
    requires FrameInv(o', s.net + {Packet(a, b, r.out.value)}, s.log + r.events, a, b, r.out.value)
    requires IsFrame2(r.out.value) ==> !Sent(s.net, a, b, r.out.value.body.nonce)
    requires IsFrame3(r.out.value) ==> NoFrame3(s.net, a, b, r.out.value.body.nonce)
    ensures Inv(Commit(s, a, b, r, o'))
  {
    Grow(s, Commit(s, a, b, r, o'), a, b, r.out);
  }

  lemma {:induction false} Unchanged(s: State, o': map<Nonce, Origin>, a: Mac, b: Mac, c: Ctx)
    requires Acts(s, o', a, b) && CtxInv(s.origin, s.net, a, b, c)
    ensures CtxInv(o', s.net, a, b, c)
  {
    CtxInvGrows(s.origin, o', s.net, s.net, a, b, c);
  }

  lemma {:induction false} CounterRises(o: map<Nonce, Origin>, net: set<Packet>, a: Mac, b: Mac, c: Ctx, k: nat)
    requires CtxInv(o, net, a, b, c) && c.counter <= k
    ensures CtxInv(o, net, a, b, c.(counter := k))
  {
    if c.idx == 3 {
      var m: nat :| Confirmed(net, a, b, c.kck, m) && m <= c.counter && (m == c.counter ==> c.ptk == c.kck);
    }
  }

  /** A nonce that was never drawn is in no frame. */
  lemma {:induction false} NeverSent(s: State, a: Mac, b: Mac, x: Nonce)
    requires Inv(s) && Unused(s, x)
    ensures !Sent(s.net, a, b, x)
  {
    forall f | Packet(a, b, f) in s.net ensures f.body.nonce != x {
      assert FrameInv(s.origin, s.net, s.log, a, b, f);
    }
  }

  /** The sender of a frame drew its nonce. */
  lemma {:induction false} NonceOwner(s: State, a: Mac, b: Mac, f: Frame)
    requires Inv(s) && Packet(a, b, f) in s.net && f.body.nonce != 0
    ensures Own(s.origin, a, b, f.body.nonce) && Sent(s.net, a, b, f.body.nonce)
    ensures IsFrame2(f) || OwnA(s.origin, a, b, f.body.nonce)
  {
    assert FrameInv(s.origin, s.net, s.log, a, b, f);
  }

  lemma {:induction false} ResetCtx(s: State, o': map<Nonce, Origin>, a: Mac, b: Mac, c: Ctx)
    requires Acts(s, o', a, b) && (c == NewCtx(a, b) || c == ZERO_CTX)
    ensures CtxInv(o', s.net, a, b, c)
  {
    forall f | Packet(a, b, f) in s.net && IsFrame3(f) ensures f.body.nonce != 0 {
      assert FrameInv(s.origin, s.net, s.log, a, b, f);
    }
  }

  /** begin_1905_4way_handshake, from any context the invariant allows. */
  lemma {:induction false} BeginStep(s: State, n: Node, a: Mac, b: Mac, rekey: bool, rnd: Nonce, sent: bool, s': State)
    requires Inv(s) && a in s.nodes && a != b && Unused(s, rnd)
    requires OnlyPeer(s.nodes[a], n, b)
    requires b in n.peers ==> CtxInv(s.origin, s.net, a, b, n.peers[b])
    requires s' == Commit(s, a, b, Begin(n, b, rekey, rnd, sent),
                          s.origin[rnd := ANonce(a, b, CounterOf(n, b) + 1, rekey)])
    ensures Inv(s')
  {
    var r := Begin(n, b, rekey, rnd, sent);
    var o' := s.origin[rnd := ANonce(a, b, CounterOf(n, b) + 1, rekey)];
    assert Extends(s.origin, o');
    if b in n.peers { Unchanged(s, o', a, b, n.peers[b]); }
    if !CanBegin(n, b) {
      Quiet(s, o', a, b, r);
    } else {
      var c := n.peers[b];
      var c1 := c.(rekeying := rekey, counter := c.counter + 1, aNonce := rnd);
      NeverSent(s, a, b, rnd);
      NeverSent(s, b, a, rnd);
      CounterRises(o', s.net, a, b, c, c.counter + 1);
      FreshANonce(s, o', a, b, c.(counter := c.counter + 1), rekey, rnd);
      if !sent {
        Quiet(s, o', a, b, r);
      } else {
        BeginSent(s, o', s.net + {Packet(a, b, r.out.value)}, a, b, c1, r.out.value);
        assert s.log + [] == s.log;
        Speaks(s, o', a, b, r);
      }
    }
  }

  lemma {:induction false} FreshANonce(s: State, o': map<Nonce, Origin>, a: Mac, b: Mac, c: Ctx, rekey: bool,
      rnd: Nonce)
    requires CtxInv(o', s.net, a, b, c)
    requires rnd != 0 && OwnA(o', a, b, rnd) && o'[rnd].counter <= c.counter && !Sent(s.net, a, b, rnd)
    ensures CtxInv(o', s.net, a, b, c.(rekeying := rekey, aNonce := rnd))
  {
    var c' := c.(rekeying := rekey, aNonce := rnd);
    assert Behind(s.net, a, b, c');
    if c.idx == 3 {
      var m: nat :| Confirmed(s.net, a, b, c.kck, m) && m <= c.counter && (m == c.counter ==> c.ptk == c.kck);
      assert Confirmed(s.net, a, b, c'.kck, m);
    }
  }

  lemma {:induction false} BeginSent(s: State, o': map<Nonce, Origin>, net': set<Packet>, a: Mac, b: Mac, c: Ctx,
      f: Frame)
    requires Acts(s, o', a, b) && CtxInv(o', s.net, a, b, c) && f == Frame1(c) && net' == s.net + {Packet(a, b, f)}
    requires OwnA(o', a, b, c.aNonce) && o'[c.aNonce].counter == c.counter && !Sent(s.net, a, b, c.aNonce)
    requires o'[c.aNonce].rekey == c.rekeying && c.pmk != NoPmk
    ensures CtxInv(o', net', a, b, c.(idx := 1)) && FrameInv(o', net', s.log, a, b, f)
  {
    if c.kck != NoPtk { KeyKnownGrows(o', o', s.net, net', a, b, c.kck); }
  }

  /** The state after each kind of step. */
  lemma {:induction false} DiscoveryRequestIs(s: State, step: Step, s': State)
    requires Takes(s, step, s') && step.DiscoveryRequest?
    ensures var DiscoveryRequest(a, b, rnd, responded, sent) := step;
            s' == Commit(s, a, b, OnDiscoveryRequest(s.nodes[a], b, rnd, responded, sent),
                s.origin[rnd := ANonce(a, b, 1, false)])
  {
  }

  lemma {:induction false} RekeyPeerIs(s: State, step: Step, s': State)
    requires Takes(s, step, s') && step.RekeyPeer?
    ensures var RekeyPeer(a, b, rnd, sent) := step;
            s' == Commit(s, a, b, RekeyPtkOne(s.nodes[a], b, rnd, sent),
                         s.origin[rnd := ANonce(a, b, CounterOf(s.nodes[a], b) + 1, true)])
  {
  }

  lemma {:induction false} GroupSendIs(s: State, step: Step, s': State)
    requires Takes(s, step, s') && step.GroupSend?
    ensures var GroupSend(a, b, sent) := step;
            s' == Commit(s, a, b, SendGroup(s.nodes[a], b, sent), s.origin)
  {
  }

  lemma {:induction false} DeliverIs(s: State, step: Step, s': State)
    requires Takes(s, step, s') && step.Deliver?
    ensures var Deliver(a, b, f, rnd, sent) := step;
            s' == Commit(s, a, b, OnEapol(s.nodes[a], b, f, rnd, sent), s.origin[rnd := SNonce(a, b)])
  {
  }

  lemma {:induction false} DiscoveryBegins(s: State, n: Node, a: Mac, b: Mac, rnd: Nonce, sent: bool, s': State)
    requires Inv(s) && a in s.nodes && a != b && Unused(s, rnd) && OnlyPeer(s.nodes[a], n, b)
    requires b in n.peers && n.peers[b] == NewCtx(a, b)
    requires s' == Commit(s, a, b, Begin(n, b, false, rnd, sent), s.origin[rnd := ANonce(a, b, 1, false)])
    ensures Inv(s')
  {
    ResetCtx(s, s.origin, a, b, NewCtx(a, b));
    assert CounterOf(n, b) == 0;
    BeginStep(s, n, a, b, false, rnd, sent, s');
  }

  lemma {:induction false} DiscoveryRequestKeeps(s: State, a: Mac, b: Mac, rnd: Nonce, responded: bool, sent: bool,
      s': State)
    requires Inv(s) && a in s.nodes && a != b && Unused(s, rnd)
    requires s' == Commit(s, a, b, OnDiscoveryRequest(s.nodes[a], b, rnd, responded, sent),
      s.origin[rnd := ANonce(a, b, 1, false)])
    ensures Inv(s')
  {
    var n := s.nodes[a];
    var n1 := if n.hasGmk && n.gtk == NoGtk then DeriveGtk(n) else n;
    var n2 := WithCtx(n1, b, NewCtx(a, b));
    if responded {
      DiscoveryBegins(s, n2, a, b, rnd, sent, s');
    } else {
      var o' := s.origin[rnd := ANonce(a, b, 1, false)];
      ResetCtx(s, o', a, b, NewCtx(a, b));
      Quiet(s, o', a, b, Reaction(n2, None, [], false));
    }
  }

  lemma {:induction false} DiscoveryRequestStep(s: State, step: Step, s': State)
    requires Inv(s) && Takes(s, step, s') && step.DiscoveryRequest?
    ensures Inv(s')
  {
    var DiscoveryRequest(a, b, rnd, responded, sent) := step;
    DiscoveryRequestIs(s, step, s');
    DiscoveryRequestKeeps(s, a, b, rnd, responded, sent, s');
  }

  lemma {:induction false} RekeyPeerKeeps(s: State, a: Mac, b: Mac, rnd: Nonce, sent: bool, s': State)
    requires Inv(s) && a in s.nodes && a != b && Unused(s, rnd)
    requires s' == Commit(s, a, b, RekeyPtkOne(s.nodes[a], b, rnd, sent),
                          s.origin[rnd := ANonce(a, b, CounterOf(s.nodes[a], b) + 1, true)])
    ensures Inv(s')
  {
    var o' := s.origin[rnd := ANonce(a, b, CounterOf(s.nodes[a], b) + 1, true)];
    if b in s.nodes[a].peers {
      Unchanged(s, o', a, b, s.nodes[a].peers[b]);
    } else {
      ResetCtx(s, o', a, b, ZERO_CTX);
    }
    Quiet(s, o', a, b, RekeyPtkOne(s.nodes[a], b, rnd, sent));
  }

  lemma {:induction false} RekeyPeerStep(s: State, step: Step, s': State)
    requires Inv(s) && Takes(s, step, s') && step.RekeyPeer?
    ensures Inv(s')
  {
    RekeyPeerIs(s, step, s');
    RekeyPeerKeeps(s, step.at, step.peer, step.rnd, step.sent, s');
  }

  lemma {:induction false} GroupSendKeeps(s: State, a: Mac, b: Mac, sent: bool, s': State)
    requires Inv(s) && a in s.nodes && a != b && s' == Commit(s, a, b, SendGroup(s.nodes[a], b, sent), s.origin)
    ensures Inv(s')
  {
    var n := s.nodes[a];
    var r := SendGroup(n, b, sent);
    if b !in n.peers {
      Quiet(s, s.origin, a, b, r);
    } else {
      var c := n.peers[b].(counter := n.peers[b].counter + 1);
      CounterRises(s.origin, s.net, a, b, n.peers[b], c.counter);
      if r.out == None {
        Quiet(s, s.origin, a, b, r);
      } else {
        GroupSent(s, s.net + {Packet(a, b, r.out.value)}, a, b, c, n.gtkId, n.gtk);
        assert s.log + [] == s.log;
        Speaks(s, s.origin, a, b, r);
      }
    }
  }

  lemma {:induction false} GroupSendStep(s: State, step: Step, s': State)
    requires Inv(s) && Takes(s, step, s') && step.GroupSend?
    ensures Inv(s')
  {
    GroupSendIs(s, step, s');
    GroupSendKeeps(s, step.at, step.peer, step.sent, s');
  }

  lemma {:induction false} GroupSent(s: State, net': set<Packet>, a: Mac, b: Mac, c: Ctx, gtkId: byte, gtk: Gtk)
    requires Acts(s, s.origin, a, b) && CtxInv(s.origin, s.net, a, b, c) && c.kck != NoPtk
    requires net' == s.net + {Packet(a, b, GroupFrame1(c, gtkId, gtk))}
    requires forall f :: Packet(a, b, f) in s.net && IsFrame3(f) && f.body.nonce == c.aNonce ==>
               f.body.counter < c.counter
    ensures CtxInv(s.origin, net', a, b, c.(idx := 1))
    ensures FrameInv(s.origin, net', s.log, a, b, GroupFrame1(c, gtkId, gtk))
  {
    KeyKnownGrows(s.origin, s.origin, s.net, net', a, b, c.kck);
  }

  // -- Delivery -----------------------------------------------------------------------------------

  /** A frame f from b is delivered to a, which then draws the nonce rnd if it needs one. */
  ghost predicate Gets(s: State, o': map<Nonce, Origin>, a: Mac, b: Mac, f: Frame, rnd: Nonce) {
    && Acts(s, o', a, b) && Unused(s, rnd) && o' == s.origin[rnd := SNonce(a, b)]
    && Packet(b, a, f) in s.net && b in s.nodes[a].peers && s.nodes[a].peers[b].pmk != NoPmk
  }

  lemma {:induction false} Frame1Step(s: State, o': map<Nonce, Origin>, a: Mac, b: Mac, f: Frame, rnd: Nonce,
      sent: bool)
    requires Gets(s, o', a, b, f, rnd) && f.body.pairwise && s.nodes[a].peers[b].idx == 0
    ensures var r := OnFrame1(s.nodes[a], b, s.nodes[a].peers[b], f, rnd, sent);
            Inv(Commit(s, a, b, r, o'))
  {
    var c := s.nodes[a].peers[b];
    if f.body.counter > c.counter && f.body.nonce != 0 {
      Frame1Taken(s, o', a, b, f, rnd, sent);
    } else {
      Unchanged(s, o', a, b, c);
      if f.body.counter > c.counter { CounterRises(o', s.net, a, b, c, f.body.counter); }
      Quiet(s, o', a, b, OnFrame1(s.nodes[a], b, c, f, rnd, sent));
    }
  }

  lemma {:induction false} Frame1Taken(s: State, o': map<Nonce, Origin>, a: Mac, b: Mac, f: Frame, rnd: Nonce,
      sent: bool)
    requires Gets(s, o', a, b, f, rnd) && f.body.pairwise && s.nodes[a].peers[b].idx == 0
    requires f.body.counter > s.nodes[a].peers[b].counter && f.body.nonce != 0
    ensures var r := OnFrame1(s.nodes[a], b, s.nodes[a].peers[b], f, rnd, sent);
            Inv(Commit(s, a, b, r, o'))
  {
    var c := s.nodes[a].peers[b];
    var r := OnFrame1(s.nodes[a], b, c, f, rnd, sent);
    NonceOwner(s, b, a, f);
    NeverSent(s, a, b, rnd);
    var y := if c.sNonce == 0 then rnd else c.sNonce;
    var c2 := c.(counter := f.body.counter, aNonce := f.body.nonce, rekeying := f.body.secure, sNonce := y);
    var c3 := Derive(c2, a, b);
    assert CtxInv(s.origin, s.net, a, b, c);
    Adopted(s, o', a, b, c3);
    if !sent {
      Quiet(s, o', a, b, r);
    } else {
      Frame2Sent(s, o', s.net + {Packet(a, b, Frame2(c3))}, a, b, c3, f);
      assert s.log + [] == s.log;
      Speaks(s, o', a, b, r);
    }
  }

  /** The context after a peer's nonce was taken over and a key derived. */
  lemma {:induction false} Adopted(s: State, o': map<Nonce, Origin>, a: Mac, b: Mac, c: Ctx)
    requires Acts(s, o', a, b) && c.pmk == PairPmk(a, b) && c.idx == 0
    requires Own(o', b, a, c.aNonce) && Sent(s.net, b, a, c.aNonce)
    requires OwnS(o', a, b, c.sNonce) && !Sent(s.net, a, b, c.sNonce) && c.sNonce != 0
    requires c.ptk == c.kck == c.kek == ComputePtk(c.pmk, a, b, c.aNonce, c.sNonce)
    ensures CtxInv(o', s.net, a, b, c) && KeyKnown(o', s.net, a, b, c.kck)
  {
    forall g | Packet(a, b, g) in s.net && IsFrame3(g) ensures g.body.nonce != c.aNonce {
      assert FrameInv(s.origin, s.net, s.log, a, b, g);
    }
  }

  lemma {:induction false} Frame2Sent(s: State, o': map<Nonce, Origin>, net': set<Packet>, a: Mac, b: Mac, c: Ctx,
      f: Frame)
    requires Acts(s, o', a, b) && CtxInv(o', s.net, a, b, c) && KeyKnown(o', s.net, a, b, c.kck)
    requires Packet(b, a, f) in s.net && f.body.pairwise && f.body.nonce == c.aNonce && f.body.counter == c.counter
    requires f.body.secure == c.rekeying
    requires Own(o', b, a, c.aNonce) && OwnS(o', a, b, c.sNonce) && c.sNonce != 0 && c.idx == 0
    requires c.ptk == c.kck == ComputePtk(c.pmk, a, b, c.aNonce, c.sNonce)
    requires net' == s.net + {Packet(a, b, Frame2(c))}
    ensures CtxInv(o', net', a, b, c.(idx := 2)) && FrameInv(o', net', s.log, a, b, Frame2(c))
  {
    KeyKnownGrows(o', o', s.net, net', a, b, c.kck);
    assert Other(c.kck, c.sNonce) == c.aNonce;
    assert Packet(b, a, f) in net';
    assert Asked(net', b, a, c.aNonce, c.counter, c.rekeying);
  }

  lemma {:induction false} Frame2Step(s: State, o': map<Nonce, Origin>, a: Mac, b: Mac, f: Frame, rnd: Nonce,
      sent: bool)
    requires Gets(s, o', a, b, f, rnd) && f.body.pairwise && s.nodes[a].peers[b].idx == 1
    ensures var r := OnFrame2(s.nodes[a], b, s.nodes[a].peers[b], f, sent);
            Inv(Commit(s, a, b, r, o'))
  {
    var c := s.nodes[a].peers[b];
    var r := OnFrame2(s.nodes[a], b, c, f, sent);
    Unchanged(s, o', a, b, c);
    if f.body.counter != c.counter || f.body.nonce == 0 {
      Quiet(s, o', a, b, r);
    } else {
      var c1 := Derive(c.(sNonce := f.body.nonce), b, a);
      NonceOwner(s, b, a, f);
      Derived(s, o', a, b, c, f.body.nonce);
      if VerifyMic(c1.kck, f) {
        Frame2Taken(s, o', a, b, f, rnd, sent);
      } else {
        Quiet(s, o', a, b, r);
      }
    }
  }

  lemma {:induction false} Derived(s: State, o': map<Nonce, Origin>, a: Mac, b: Mac, c: Ctx, y: Nonce)
    requires Acts(s, o', a, b) && CtxInv(o', s.net, a, b, c) && c.idx == 1 && c.pmk != NoPmk
    requires Own(o', b, a, y) && Sent(s.net, b, a, y)
    ensures CtxInv(o', s.net, a, b, Derive(c.(sNonce := y), b, a))
  {
  }

  /** A frame that verifies as frame 2 answers the frame 1 sent last, before any frame 3. */
  lemma {:induction false} Frame2Answers(s: State, a: Mac, b: Mac, c: Ctx, f: Frame)
    requires Inv(s) && CtxInv(s.origin, s.net, a, b, c) && c.idx == 1
    requires Packet(b, a, f) in s.net && f.body.pairwise && f.body.nonce != 0 && f.body.counter == c.counter
    requires VerifyMic(LinkKey(a, b, c.aNonce, f.body.nonce), f)
    ensures IsFrame2(f) && OwnS(s.origin, b, a, f.body.nonce) && OwnA(s.origin, a, b, c.aNonce)
    ensures s.origin[c.aNonce].counter == c.counter && NoFrame3(s.net, a, b, c.aNonce)
    ensures f.body.secure == s.origin[c.aNonce].rekey
  {
    var o := s.origin;
    assert FrameInv(o, s.net, s.log, b, a, f);
    if IsFrame3(f) {
      assert false;
    }
    assert Other(KeyOf(f), f.body.nonce) == c.aNonce;
    var g :| Packet(a, b, g) in s.net && g.body.pairwise && g.body.nonce == c.aNonce
        && g.body.counter == f.body.counter && g.body.secure == f.body.secure;
    assert FrameInv(o, s.net, s.log, a, b, g);
    forall h | Packet(a, b, h) in s.net && IsFrame3(h) ensures h.body.nonce != c.aNonce {
      assert FrameInv(o, s.net, s.log, a, b, h);
    }
  }

  lemma {:induction false} Frame2Taken(s: State, o': map<Nonce, Origin>, a: Mac, b: Mac, f: Frame, rnd: Nonce,
      sent: bool)
    requires Gets(s, o', a, b, f, rnd) && f.body.pairwise && s.nodes[a].peers[b].idx == 1
    requires f.body.counter == s.nodes[a].peers[b].counter && f.body.nonce != 0
    requires VerifyMic(LinkKey(a, b, s.nodes[a].peers[b].aNonce, f.body.nonce), f)
    requires CtxInv(o', s.net, a, b, Derive(s.nodes[a].peers[b].(sNonce := f.body.nonce), b, a))
    ensures var r := OnFrame2(s.nodes[a], b, s.nodes[a].peers[b], f, sent);
            Inv(Commit(s, a, b, r, o'))
  {
    var n := s.nodes[a];
    var c := n.peers[b];
    var r := OnFrame2(n, b, c, f, sent);
    Frame2Answers(s, a, b, c, f);
    var c1 := Derive(c.(sNonce := f.body.nonce), b, a);
    CounterRises(o', s.net, a, b, c1, c.counter + 1);
    if r.out.None? {
      Quiet(s, o', a, b, r);
    } else {
      Frame3Sent(s, o', s.net + {Packet(a, b, r.out.value)}, a, b, c1.(counter := c.counter + 1), f, n.gtkId, n.gtk);
      assert s.log + [] == s.log;
      Speaks(s, o', a, b, r);
    }
  }

  lemma {:induction false} Frame3Sent(s: State, o': map<Nonce, Origin>, net': set<Packet>, a: Mac, b: Mac, c: Ctx,
      f: Frame, gtkId: byte, gtk: Gtk)
    requires Acts(s, o', a, b) && CtxInv(o', s.net, a, b, c) && NoFrame3(s.net, a, b, c.aNonce)
    requires c.ptk == c.kck == LinkKey(a, b, c.aNonce, f.body.nonce)
    requires Packet(b, a, f) in s.net && IsFrame2(f) && KeyOf(f) == c.kck && f.body.counter + 1 == c.counter
    requires OwnA(o', a, b, c.aNonce) && o'[c.aNonce].counter + 1 == c.counter && OwnS(o', b, a, f.body.nonce)
    requires net' == s.net + {Packet(a, b, Frame3(c, gtkId, gtk))}
    ensures CtxInv(o', net', a, b, c.(idx := 3)) && FrameInv(o', net', s.log, a, b, Frame3(c, gtkId, gtk))
  {
    KeyKnownGrows(o', o', s.net, net', a, b, c.kck);
    assert Packet(b, a, f) in net' && Packet(a, b, Frame3(c, gtkId, gtk)) in net';
    assert Other(c.kck, c.aNonce) == f.body.nonce;
    assert Answered(net', b, a, c.kck, f.body.nonce, c.counter - 1);
    assert Confirmed(net', a, b, c.kck, c.counter);
  }

  lemma {:induction false} Frame3Step(s: State, o': map<Nonce, Origin>, a: Mac, b: Mac, f: Frame, rnd: Nonce,
      sent: bool)
    requires Gets(s, o', a, b, f, rnd) && f.body.pairwise && s.nodes[a].peers[b].idx == 2
    ensures var r := OnFrame3(s.nodes[a], b, s.nodes[a].peers[b], f, sent);
            Inv(Commit(s, a, b, r, o'))
  {
    var c := s.nodes[a].peers[b];
    var r := OnFrame3(s.nodes[a], b, c, f, sent);
    Unchanged(s, o', a, b, c);
    if f.body.counter > c.counter { CounterRises(o', s.net, a, b, c, f.body.counter); }
    if r.out.None? {
      Quiet(s, o', a, b, r);
    } else {
      var c1 := c.(counter := f.body.counter);
      Frame4Sent(s, o', s.net + {Packet(a, b, Frame4(c1))}, s.log + r.events, a, b, c1, f);
      Speaks(s, o', a, b, r);
    }
  }

  lemma {:induction false} Frame4Sent(s: State, o': map<Nonce, Origin>, net': set<Packet>, log': seq<Event>, a: Mac,
      b: Mac, c: Ctx, f: Frame)
    requires Acts(s, o', a, b) && CtxInv(o', s.net, a, b, c) && c.kck != NoPtk && c.idx == 2
    requires Packet(b, a, f) in s.net && IsFrame3(f) && KeyOf(f) == c.kck && f.body.counter == c.counter
    requires PtkInstalled(a, b, c.kck, Supplicant) in log' && net' == s.net + {Packet(a, b, Frame4(c))}
    ensures CtxInv(o', net', a, b, c.(idx := 4, ptk := NoPtk)) && FrameInv(o', net', log', a, b, Frame4(c))
  {
    KeyKnownGrows(o', o', s.net, net', a, b, c.kck);
    assert Packet(b, a, f) in net';
    assert Confirmed(net', b, a, c.kck, c.counter);
  }

  /** A frame 3 under key k shows which nonces k was derived from. */
  lemma {:induction false} Frame3Nonces(s: State, a: Mac, b: Mac, f: Frame, k: Ptk)
    requires Inv(s) && Packet(a, b, f) in s.net && IsFrame3(f) && KeyOf(f) == k
    ensures OwnA(s.origin, a, b, f.body.nonce) && f.body.counter > 0 && OfLink(k, a, b) && Has(k, f.body.nonce)
    ensures OwnS(s.origin, b, a, Other(k, f.body.nonce))
    ensures Answered(s.net, b, a, k, Other(k, f.body.nonce), f.body.counter - 1)
  {
    assert FrameInv(s.origin, s.net, s.log, a, b, f);
  }

  /** The pairwise frames that b signed with the key of a frame 3 from a: the frame 2 that this
      frame 3 answered, and frames 4 that answer it. */
  lemma {:induction false} Frame3Replies(s: State, a: Mac, b: Mac, q: Frame, f: Frame)
    requires Inv(s) && Packet(a, b, q) in s.net && IsFrame3(q)
    requires Packet(b, a, f) in s.net && f.body.pairwise && VerifyMic(KeyOf(q), f)
    ensures f.body.counter == q.body.counter - 1 || (IsFrame4(f) && f.body.counter == q.body.counter)
  {
    var k := KeyOf(q);
    Frame3Nonces(s, a, b, q, k);
    var y := Other(k, q.body.nonce);
    assert FrameInv(s.origin, s.net, s.log, b, a, f);
    if IsFrame2(f) {
      var g :| Packet(b, a, g) in s.net && IsFrame2(g) && g.body.nonce == y && g.body.counter == q.body.counter - 1
          && KeyOf(g) == k;
      assert f == g;
    } else if IsFrame4(f) {
      var q' :| Packet(a, b, q') in s.net && IsFrame3(q') && KeyOf(q') == k && q'.body.counter == f.body.counter;
      Frame3Nonces(s, a, b, q', k);
      assert q' == q;
    }
  }

  /** A frame that verifies as frame 4 answers the frame 3 sent last: its key was installed by the
      supplicant and is the key the authenticator is about to install. */
  lemma {:induction false} Frame4Answers(s: State, a: Mac, b: Mac, c: Ctx, f: Frame)
    requires Inv(s) && CtxInv(s.origin, s.net, a, b, c) && c.idx == 3
    requires Packet(b, a, f) in s.net && f.body.pairwise && f.body.counter == c.counter && VerifyMic(c.kck, f)
    ensures c.ptk == c.kck && PtkInstalled(b, a, c.kck, Supplicant) in s.log && FromBoth(s.origin, a, b, c.kck)
    ensures Confirmed(s.net, a, b, c.kck, c.counter)
  {
    var m: nat :| Confirmed(s.net, a, b, c.kck, m) && m <= c.counter && (m == c.counter ==> c.ptk == c.kck);
    var q :| Packet(a, b, q) in s.net && IsFrame3(q) && KeyOf(q) == c.kck && q.body.counter == m;
    Frame3Nonces(s, a, b, q, c.kck);
    Frame3Replies(s, a, b, q, f);
    assert c.kck == LinkKey(a, b, q.body.nonce, Other(c.kck, q.body.nonce));
    assert FrameInv(s.origin, s.net, s.log, b, a, f);
  }

  lemma {:induction false} Frame4Step(s: State, o': map<Nonce, Origin>, a: Mac, b: Mac, f: Frame, rnd: Nonce)
    requires Gets(s, o', a, b, f, rnd) && f.body.pairwise && s.nodes[a].peers[b].idx == 3
    ensures var r := OnFrame4(s.nodes[a], b, s.nodes[a].peers[b], f);
            Inv(Commit(s, a, b, r, o'))
  {
    var c := s.nodes[a].peers[b];
    var r := OnFrame4(s.nodes[a], b, c, f);
    Unchanged(s, o', a, b, c);
    if !r.ok {
      Quiet(s, o', a, b, r);
    } else {
      Frame4Answers(s, a, b, c, f);
      Installed(s, o', a, b, c);
      Quiet(s, o', a, b, r);
    }
  }

  lemma {:induction false} Installed(s: State, o': map<Nonce, Origin>, a: Mac, b: Mac, c: Ctx)
    requires Acts(s, o', a, b) && CtxInv(o', s.net, a, b, c) && c.idx == 3 && Confirmed(s.net, a, b, c.kck, c.counter)
    ensures CtxInv(o', s.net, a, b, c.(counter := c.counter + 1, ptk := NoPtk))
  {
  }

  /** The first group frame is expected only before any pairwise frame was sent, and then the key it
      is checked with is one the peer cannot have used. */
  lemma {:induction false} GroupFrameRefused(s: State, a: Mac, b: Mac, c: Ctx, f: Frame)
    requires Inv(s) && CtxInv(s.origin, s.net, a, b, c) && c.idx == 0
    requires Packet(b, a, f) in s.net
    ensures !VerifyMic(c.kck, f)
  {
    assert FrameInv(s.origin, s.net, s.log, b, a, f);
  }

  lemma {:induction false} GroupFrameStep(s: State, o': map<Nonce, Origin>, a: Mac, b: Mac, f: Frame, rnd: Nonce,
      sent: bool)
    requires Gets(s, o', a, b, f, rnd) && !f.body.pairwise
    ensures var r := OnEapol(s.nodes[a], b, f, rnd, sent);
            Inv(Commit(s, a, b, r, o'))
  {
    var c := s.nodes[a].peers[b];
    var r := OnEapol(s.nodes[a], b, f, rnd, sent);
    Unchanged(s, o', a, b, c);
    if c.idx == 0 && f.body.counter > c.counter {
      GroupFrameRefused(s, a, b, c, f);
      CounterRises(o', s.net, a, b, c, f.body.counter);
    }
    Quiet(s, o', a, b, r);
  }

  lemma {:induction false} DeliverKeeps(s: State, a: Mac, b: Mac, f: Frame, rnd: Nonce, sent: bool, s': State)
    requires Inv(s) && a in s.nodes && a != b && Unused(s, rnd) && Packet(b, a, f) in s.net
    requires s' == Commit(s, a, b, OnEapol(s.nodes[a], b, f, rnd, sent), s.origin[rnd := SNonce(a, b)])
    ensures Inv(s')
  {
    var n := s.nodes[a];
    var o' := s.origin[rnd := SNonce(a, b)];
    if b !in n.peers || n.peers[b].pmk == NoPmk {
      if b in n.peers { Unchanged(s, o', a, b, n.peers[b]); }
      Quiet(s, o', a, b, OnEapol(n, b, f, rnd, sent));
    } else if !f.body.pairwise {
      GroupFrameStep(s, o', a, b, f, rnd, sent);
    } else if n.peers[b].idx == 0 {
      Frame1Step(s, o', a, b, f, rnd, sent);
    } else if n.peers[b].idx == 1 {
      Frame2Step(s, o', a, b, f, rnd, sent);
    } else if n.peers[b].idx == 2 {
      Frame3Step(s, o', a, b, f, rnd, sent);
    } else if n.peers[b].idx == 3 {
      Frame4Step(s, o', a, b, f, rnd);
    } else {
      Unchanged(s, o', a, b, n.peers[b]);
      Quiet(s, o', a, b, OnEapol(n, b, f, rnd, sent));
    }
  }

  lemma {:induction false} DeliverStep(s: State, step: Step, s': State)
    requires Inv(s) && Takes(s, step, s') && step.Deliver?
    ensures Inv(s')
  {
    DeliverIs(s, step, s');
    DeliverKeeps(s, step.at, step.peer, step.frame, step.rnd, step.sent, s');
  }

  // -- All steps ------------------------------------------------------------------------------------

  lemma {:induction false} InitInv(s: State)
    requires Init(s)
    ensures Inv(s)
  {
  }

  lemma {:induction false} DiscoveryResponseStep(s: State, step: Step, s': State)
    requires Inv(s) && Takes(s, step, s') && step.DiscoveryResponse?
    ensures Inv(s')
  {
    var DiscoveryResponse(a, b) := step;
    var r := Reaction(OnDiscoveryResponse(s.nodes[a], b), None, [], true);
    ResetCtx(s, s.origin, a, b, NewCtx(a, b));
    Quiet(s, s.origin, a, b, r);
    assert s' == Commit(s, a, b, r, s.origin);
  }

  lemma {:induction false} RekeyPtkIs(s: State, step: Step, s': State)
    requires Takes(s, step, s') && step.RekeyPtk?
    ensures var RekeyPtk(a, b, rnd, sent) := step;
            s' == Commit(s, a, b, Begin(s.nodes[a], b, true, rnd, sent),
                         s.origin[rnd := ANonce(a, b, CounterOf(s.nodes[a], b) + 1, true)])
  {
  }

  lemma {:induction false} RekeyPtkStep(s: State, step: Step, s': State)
    requires Inv(s) && Takes(s, step, s') && step.RekeyPtk?
    ensures Inv(s')
  {
    var RekeyPtk(a, b, rnd, sent) := step;
    RekeyPtkIs(s, step, s');
    BeginStep(s, s.nodes[a], a, b, true, rnd, sent, s');
  }

  lemma {:induction false} NewGtkStep(s: State, step: Step, s': State)
    requires Inv(s) && Takes(s, step, s') && step.NewGtk?
    ensures Inv(s')
  {
    var n := s.nodes[step.at];
    assert s' == s.(nodes := s.nodes[step.at := RekeyGtk(n)]);
  }

  lemma {:induction false} RestartStep(s: State, step: Step, s': State)
    requires Inv(s) && Takes(s, step, s') && step.Restart?
    ensures Inv(s')
  {
    var n := s.nodes[step.at];
    assert s' == s.(nodes := s.nodes[step.at := Restarted(n, step.gtkId)]);
  }

  lemma {:induction false} StepKeepsInv(s: State, step: Step, s': State)
    requires Inv(s) && Takes(s, step, s')
    ensures Inv(s')
  {
    match step
    case DiscoveryRequest(_, _, _, _, _) => DiscoveryRequestStep(s, step, s');
    case DiscoveryResponse(_, _) => DiscoveryResponseStep(s, step, s');
    case RekeyPtk(_, _, _, _) => RekeyPtkStep(s, step, s');
    case RekeyPeer(_, _, _, _) => RekeyPeerStep(s, step, s');
    case NewGtk(_) => NewGtkStep(s, step, s');
    case GroupSend(_, _, _) => GroupSendStep(s, step, s');
    case Deliver(_, _, _, _, _) => DeliverStep(s, step, s');
    case Restart(_, _) => RestartStep(s, step, s');
  }

  lemma {:induction false} RunKeepsInv(states: seq<State>, steps: seq<Step>, i: nat)
    requires IsRun(states, steps) && i < |states|
    ensures Inv(states[i])
  {
    if i == 0 {
      InitInv(states[0]);
    } else {
      RunKeepsInv(states, steps, i - 1);
      StepKeepsInv(states[i - 1], steps[i - 1], states[i]);
    }
  }
}
