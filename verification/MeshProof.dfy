/** Every step of a mesh keeps Mesh.Inv. */
module MeshProof {
  import opened Base
  import opened Eapol
  import opened Mesh

  ghost predicate Extends(o: map<Nonce, Origin>, o': map<Nonce, Origin>) {
    0 !in o' && forall x :: x in o ==> x in o' && o'[x] == o[x]
  }

  /** The network of s plus at most one frame from a to b. */
  ghost predicate AddsOne(net: set<Packet>, net': set<Packet>, a: Mac, b: Mac, out: Option<Frame>) {
    net' == if out.Some? then net + {Packet(a, b, out.value)} else net
  }

  ghost predicate NoFrame3(net: set<Packet>, a: Mac, b: Mac, x: Nonce) {
    forall f :: Packet(a, b, f) in net && IsFrame3(f) ==> f.body.nonce != x
  }

  // -- Facts about the past survive ---------------------------------------------------------------

  lemma {:induction false} KeyKnownGrows(o: map<Nonce, Origin>, o': map<Nonce, Origin>, net: set<Packet>,
      net': set<Packet>, a: Mac, b: Mac, k: Ptk)
    requires Extends(o, o') && net <= net' && KeyKnown(o, net, a, b, k)
    ensures KeyKnown(o', net', a, b, k)
  {
  }

  lemma {:induction false} FrameInvGrows(s: State, s': State, a: Mac, b: Mac, f: Frame)
    requires Extends(s.origin, s'.origin) && s.net <= s'.net && s.log <= s'.log
    requires FrameInv(s.origin, s.net, s.log, a, b, f)
    ensures FrameInv(s'.origin, s'.net, s'.log, a, b, f)
  {
    if f.body.mic { KeyKnownGrows(s.origin, s'.origin, s.net, s'.net, a, b, KeyOf(f)); }
    if IsFrame3(f) {
      var x := Other(KeyOf(f), f.body.nonce);
      var g :| Packet(b, a, g) in s.net && IsFrame2(g) && g.body.nonce == x && g.body.counter == f.body.counter - 1
          && KeyOf(g) == KeyOf(f);
      assert Packet(b, a, g) in s'.net;
    }
    if IsFrame4(f) {
      var g :| Packet(b, a, g) in s.net && IsFrame3(g) && KeyOf(g) == KeyOf(f) && g.body.counter == f.body.counter;
      assert Packet(b, a, g) in s'.net;
    }
  }

  /** The context of one link is unaffected by a frame on another. */
  lemma {:induction false} CtxInvGrows(o: map<Nonce, Origin>, o': map<Nonce, Origin>, net: set<Packet>,
      net': set<Packet>, a: Mac, b: Mac, c: Ctx)
    requires Extends(o, o') && net <= net' && 0 !in o
    requires forall f :: Packet(a, b, f) in net' ==> Packet(a, b, f) in net
    requires CtxInv(o, net, a, b, c)
    ensures CtxInv(o', net', a, b, c)
  {
    if c.kck != NoPtk { KeyKnownGrows(o, o', net, net', a, b, c.kck); }
    if c.idx == 3 {
      var m: nat :| Confirmed(net, a, b, c.kck, m) && m <= c.counter && (m == c.counter ==> c.ptk == c.kck);
      var g :| Packet(a, b, g) in net && IsFrame3(g) && KeyOf(g) == c.kck && g.body.counter == m;
      assert Packet(a, b, g) in net';
      assert Confirmed(net', a, b, c.kck, m);
    }
  }

  lemma {:induction false} UniqueGrows(net: set<Packet>, net': set<Packet>, a: Mac, b: Mac, out: Option<Frame>)
    requires AddsOne(net, net', a, b, out) && Unique2(net) && Unique3(net)
    requires out.Some? && IsFrame2(out.value) ==> !Sent(net, a, b, out.value.body.nonce)
    requires out.Some? && IsFrame3(out.value) ==> NoFrame3(net, a, b, out.value.body.nonce)
    ensures Unique2(net') && Unique3(net')
  {
  }

  /** What a reaction of node a towards b has to establish for its own link. */
  ghost predicate LinkStep(s: State, s': State, a: Mac, b: Mac, out: Option<Frame>) {
    && a in s.nodes && a != b
    && a in s'.nodes && s'.nodes == s.nodes[a := s'.nodes[a]] && s'.nodes[a].mac == a
    && (forall x :: x in s'.nodes[a].peers && x != b ==>
          x in s.nodes[a].peers && s'.nodes[a].peers[x] == s.nodes[a].peers[x])
    && Extends(s.origin, s'.origin) && AddsOne(s.net, s'.net, a, b, out) && s.log <= s'.log
    && (b in s'.nodes[a].peers ==> CtxInv(s'.origin, s'.net, a, b, s'.nodes[a].peers[b]))
    && (out.Some? ==>
          && FrameInv(s'.origin, s'.net, s'.log, a, b, out.value)
          && (IsFrame2(out.value) ==> !Sent(s.net, a, b, out.value.body.nonce))
          && (IsFrame3(out.value) ==> NoFrame3(s.net, a, b, out.value.body.nonce)))
  }

  lemma {:induction false} GrowCtx(s: State, s': State, a: Mac, b: Mac, out: Option<Frame>, x: Mac, y: Mac)
    requires Inv(s) && LinkStep(s, s', a, b, out)
    requires x in s'.nodes && y in s'.nodes[x].peers
    ensures CtxInv(s'.origin, s'.net, x, y, s'.nodes[x].peers[y])
  {
    if x != a || y != b {
      var c := s.nodes[x].peers[y];
      assert CtxInv(s.origin, s.net, x, y, c);
      CtxInvGrows(s.origin, s'.origin, s.net, s'.net, x, y, c);
    }
  }

  /** A reaction keeps the invariant if its own link does. */
  lemma {:induction false} Grow(s: State, s': State, a: Mac, b: Mac, out: Option<Frame>)
    requires Inv(s) && LinkStep(s, s', a, b, out)
    ensures Inv(s')
  {
    forall x, y | x in s'.nodes && y in s'.nodes[x].peers
      ensures CtxInv(s'.origin, s'.net, x, y, s'.nodes[x].peers[y])
    {
      GrowCtx(s, s', a, b, out, x, y);
    }
    forall x, y, f | Packet(x, y, f) in s'.net
      ensures FrameInv(s'.origin, s'.net, s'.log, x, y, f)
    {
      if Packet(x, y, f) in s.net { FrameInvGrows(s, s', x, y, f); }
    }
    UniqueGrows(s.net, s'.net, a, b, out);
  }

  lemma {:induction false} FromBothGrows(o: map<Nonce, Origin>, o': map<Nonce, Origin>, a: Mac, b: Mac, k: Ptk)
    requires Extends(o, o') && FromBoth(o, a, b, k)
    ensures FromBoth(o', a, b, k)
  {
    var x, y :| OwnA(o, a, b, x) && OwnS(o, b, a, y) && k == LinkKey(a, b, x, y);
    assert OwnA(o', a, b, x) && OwnS(o', b, a, y);
  }
}
