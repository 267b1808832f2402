/** What the log of installed pairwise keys says about a whole run of a mesh. */
module Installs {
  import opened Eapol
  import opened Mesh
  import opened MeshProof
  import opened MeshSteps

  predicate PtkEvent(e: Event, role: Role) { e.PtkInstalled? && e.role == role }

  /** Only a delivery installs a pairwise key, and at most one. */
  lemma {:induction false} WhoInstalls(n: Node, step: Step, e: Event)
    requires e in React(n, step).events && e.PtkInstalled?
    ensures step.Deliver? && CanBegin(n, step.peer) && step.frame.body.pairwise
    ensures var c := n.peers[step.peer];
            && e == PtkInstalled(n.mac, step.peer, c.ptk, e.role)
            && (forall e' :: e' in React(n, step).events && e'.PtkInstalled? ==> e' == e)
            && (e.role == Supplicant ==> c.idx == 2 && OnFrame3(n, step.peer, c, step.frame, step.sent).ok)
            && (e.role == Authenticator ==> c.idx == 3 && OnFrame4(n, step.peer, c, step.frame).ok)
  {
  }

  /** The history only grows. */
  lemma {:induction false} StepExtends(s: State, step: Step, s': State)
    requires Inv(s) && Takes(s, step, s')
    ensures Extends(s.origin, s'.origin) && s.net <= s'.net && s'.log == s.log + React(s.nodes[step.at], step).events
  {
  }

  /** What is known when a node installs a pairwise key, by role. */
  lemma {:induction false} SupplicantInstalls(s: State, step: Step, e: Event)
    requires Inv(s) && Enabled(s, step) && e in React(s.nodes[step.at], step).events && PtkEvent(e, Supplicant)
    ensures var c := s.nodes[step.at].peers[step.peer];
            && e == PtkInstalled(step.at, step.peer, c.kck, Supplicant) && c.idx == 2
            && FromBoth(s.origin, step.peer, step.at, c.kck)
            && forall y :: OwnS(s.origin, step.at, step.peer, y) && Has(c.kck, y) ==> Sent(s.net, step.at, step.peer, y)
  {
    var a, b, f := step.at, step.peer, step.frame;
    WhoInstalls(s.nodes[a], step, e);
    var c := s.nodes[a].peers[b];
    assert CtxInv(s.origin, s.net, a, b, c);
    Frame3Nonces(s, b, a, f, c.kck);
    var x, y := f.body.nonce, Other(c.kck, f.body.nonce);
    assert c.kck == LinkKey(b, a, x, y);
    var g :| Packet(a, b, g) in s.net && IsFrame2(g) && g.body.nonce == y && g.body.counter == f.body.counter - 1
        && KeyOf(g) == c.kck;
    assert Sent(s.net, a, b, y);
  }

  lemma {:induction false} AuthenticatorInstalls(s: State, step: Step, e: Event)
    requires Inv(s) && Enabled(s, step) && e in React(s.nodes[step.at], step).events && PtkEvent(e, Authenticator)
    ensures var c := s.nodes[step.at].peers[step.peer];
            && e == PtkInstalled(step.at, step.peer, c.kck, Authenticator) && c.idx == 3
            && FromBoth(s.origin, step.at, step.peer, c.kck)
            && PtkInstalled(step.peer, step.at, c.kck, Supplicant) in s.log
            && Confirmed(s.net, step.at, step.peer, c.kck, c.counter)
  {
    var a, b, f := step.at, step.peer, step.frame;
    WhoInstalls(s.nodes[a], step, e);
    var c := s.nodes[a].peers[b];
    assert CtxInv(s.origin, s.net, a, b, c);
    Frame4Answers(s, a, b, c, f);
  }

  // -- Agreement ------------------------------------------------------------------------------------

  lemma {:induction false} AgreementStep(s: State, step: Step, s': State)
    requires Inv(s) && Takes(s, step, s') && Agreement(s.origin, s.log)
    ensures Agreement(s'.origin, s'.log)
  {
    StepExtends(s, step, s');
    forall i | 0 <= i < |s'.log| && PtkEvent(s'.log[i], Authenticator)
      ensures PtkInstalled(s'.log[i].peer, s'.log[i].node, s'.log[i].ptk, Supplicant) in s'.log[..i]
      ensures FromBoth(s'.origin, s'.log[i].node, s'.log[i].peer, s'.log[i].ptk)
    {
      var e := s'.log[i];
      if i < |s.log| {
        assert s'.log[..i] == s.log[..i];
      } else {
        AuthenticatorInstalls(s, step, e);
        assert s'.log[..i][..|s.log|] == s.log;
      }
      FromBothGrows(s.origin, s'.origin, e.node, e.peer, e.ptk);
    }
  }

  /** Handshake agreement.  In every run, whatever is lost, duplicated, reordered or rekeyed, an
      authenticator installs a pairwise key only after the supplicant has installed that same key,
      derived from the PMK of the two, a nonce drawn by the authenticator for this supplicant and
      a nonce drawn by the supplicant for this authenticator. */
  lemma {:induction false} HandshakeAgreement(states: seq<State>, steps: seq<Step>, i: nat)
    requires IsRun(states, steps) && i < |states|
    ensures Agreement(states[i].origin, states[i].log)
  {
    if i > 0 {
      HandshakeAgreement(states, steps, i - 1);
      RunKeepsInv(states, steps, i - 1);
      AgreementStep(states[i - 1], steps[i - 1], states[i]);
    }
  }
}
