/** No pairwise key is ever installed twice by the same node, so its packet numbers are never reset. */
module Reinstall {
  import opened Eapol
  import opened Mesh
  import opened MeshProof
  import opened MeshSteps
  import opened Installs
  import opened Session

  /** The two events do not install the same pairwise key on the same node. */
  predicate Differ(d: Event, e: Event) { d.PtkInstalled? && e.PtkInstalled? && d.node == e.node ==> d.ptk != e.ptk }

  ghost predicate NoReinstall(log: seq<Event>) { forall i, j :: 0 <= i < j < |log| ==> Differ(log[i], log[j]) }

  ghost predicate AtIdx(s: State, a: Mac, b: Mac, idx: nat, k: Ptk) {
    a in s.nodes && b in s.nodes[a].peers && s.nodes[a].peers[b].idx == idx && s.nodes[a].peers[b].kck == k
  }

  /** An installed key cannot be installed again from the present state. */
  ghost predicate Spent(s: State, a: Mac, b: Mac, k: Ptk, role: Role) {
    match role
    case Supplicant =>
      && FromBoth(s.origin, b, a, k)
      && (forall y :: OwnS(s.origin, a, b, y) && Has(k, y) ==> Sent(s.net, a, b, y))
      && !AtIdx(s, a, b, 2, k)
    case Authenticator =>
      && FromBoth(s.origin, a, b, k)
      && exists m: nat :: Confirmed(s.net, a, b, k, m) && (AtIdx(s, a, b, 3, k) ==> m < s.nodes[a].peers[b].counter)
  }

  ghost predicate AllSpent(s: State) {
    forall e {:trigger Spent(s, e.node, e.peer, e.ptk, e.role)} ::
      e in s.log && e.PtkInstalled? ==> Spent(s, e.node, e.peer, e.ptk, e.role)
  }

  /** A key from both is a key of this link, and of these roles, only. */
  lemma {:induction false} RolesDiffer(o: map<Nonce, Origin>, a: Mac, b: Mac, c: Mac, k: Ptk)
    requires FromBoth(o, a, b, k) && a != b
    ensures !FromBoth(o, b, a, k)
    ensures FromBoth(o, a, c, k) ==> c == b
    ensures FromBoth(o, c, b, k) ==> c == a
    ensures FromBoth(o, c, a, k) ==> c == b
    ensures FromBoth(o, b, c, k) ==> c == a
  {
  }

  lemma {:induction false} ConfirmedOnce(s: State, a: Mac, b: Mac, k: Ptk, m: nat, m': nat)
    requires Inv(s) && Confirmed(s.net, a, b, k, m) && Confirmed(s.net, a, b, k, m')
    ensures m == m'
  {
    var q :| Packet(a, b, q) in s.net && IsFrame3(q) && KeyOf(q) == k && q.body.counter == m;
    var q' :| Packet(a, b, q') in s.net && IsFrame3(q') && KeyOf(q') == k && q'.body.counter == m';
    Frame3Nonces(s, a, b, q, k);
    Frame3Nonces(s, a, b, q', k);
    assert q == q';
  }

  /** The context of a link comes to idx 2 or 3 with key k only by the delivery of a frame on it. */
  lemma {:induction false} Arms(s: State, step: Step, s': State, a: Mac, b: Mac, idx: nat, k: Ptk)
    requires Inv(s) && Takes(s, step, s') && 2 <= idx <= 3 && AtIdx(s', a, b, idx, k) && !AtIdx(s, a, b, idx, k)
    ensures step.Deliver? && step.at == a && step.peer == b && CanBegin(s.nodes[a], b)
    ensures s'.nodes[a] == OnEapol(s.nodes[a], b, step.frame, step.rnd, step.sent).node
    ensures s.nodes[a].peers[b].idx == idx - 2
  {
    var n := s.nodes[step.at];
    assert s'.nodes == s.nodes[step.at := React(n, step).node];
    if a == step.at {
      if step.Restart? {
        assert false;
      }
      if step.NewGtk? || b != step.peer {
        OtherPeers(n, step, b);
        assert false;
      }
      if !step.Deliver? {
        InitiationIdx(n, step);
        assert false;
      }
      DeliverAdvances(n, step);
    }
  }

  /** The key a supplicant derives contains the SNonce it keeps or draws. */
  lemma {:induction false} DerivedKeyHas(n: Node, src: Mac, f: Frame, rnd: Nonce, sent: bool)
    requires CanBegin(n, src) && n.peers[src].idx == 0 && f.body.pairwise
    ensures var n' := OnEapol(n, src, f, rnd, sent).node;
            src in n'.peers && (n'.peers[src].idx == 2 ==>
              Has(n'.peers[src].kck, if n.peers[src].sNonce == 0 then rnd else n.peers[src].sNonce))
  {
  }

  lemma {:induction false} UnsentSNonce(s: State, o': map<Nonce, Origin>, a: Mac, b: Mac, c: Ctx, rnd: Nonce, y: Nonce)
    requires Inv(s) && CtxInv(s.origin, s.net, a, b, c) && c.idx == 0 && Unused(s, rnd)
    requires o' == s.origin[rnd := SNonce(a, b)] && y == if c.sNonce == 0 then rnd else c.sNonce
    ensures OwnS(o', a, b, y) && !Sent(s.net, a, b, y)
  {
    NeverSent(s, a, b, rnd);
  }

  /** The frame last sent becomes frame 2 only together with a key whose SNonce was never sent. */
  lemma {:induction false} ArmsSupplicant(s: State, step: Step, s': State, a: Mac, b: Mac, k: Ptk)
    requires Inv(s) && Takes(s, step, s') && AtIdx(s', a, b, 2, k) && !AtIdx(s, a, b, 2, k)
    ensures exists y :: OwnS(s'.origin, a, b, y) && Has(k, y) && !Sent(s.net, a, b, y)
  {
    Arms(s, step, s', a, b, 2, k);
    var n := s.nodes[a];
    ArmedByFrame(s, step, s', a, b, k);
    var y := if n.peers[b].sNonce == 0 then step.rnd else n.peers[b].sNonce;
    assert OwnS(s'.origin, a, b, y) && Has(k, y) && !Sent(s.net, a, b, y);
  }

  lemma {:induction false} ArmedByFrame(s: State, step: Step, s': State, a: Mac, b: Mac, k: Ptk)
    requires Inv(s) && Enabled(s, step) && step.Deliver? && step.at == a && step.peer == b && CanBegin(s.nodes[a], b)
    requires s.nodes[a].peers[b].idx == 0 && AtIdx(s', a, b, 2, k) && s'.origin == s.origin[step.rnd := SNonce(a, b)]
    requires s'.nodes[a] == OnEapol(s.nodes[a], b, step.frame, step.rnd, step.sent).node
    ensures var y := if s.nodes[a].peers[b].sNonce == 0 then step.rnd else s.nodes[a].peers[b].sNonce;
            OwnS(s'.origin, a, b, y) && Has(k, y) && !Sent(s.net, a, b, y)
  {
    var c := s.nodes[a].peers[b];
    assert CtxInv(s.origin, s.net, a, b, c);
    var y := if c.sNonce == 0 then step.rnd else c.sNonce;
    UnsentSNonce(s, s'.origin, a, b, c, step.rnd, y);
    if step.frame.body.pairwise {
      DerivedKeyHas(s.nodes[a], b, step.frame, step.rnd, step.sent);
    } else {
      GroupFrameRefused(s, a, b, c, step.frame);
    }
  }

  /** For a key that a supplicant has just derived there is no frame 3 yet. */
  lemma {:induction false} NewlyArmed(s: State, step: Step, s': State, b: Mac, a: Mac, f: Frame)
    requires Inv(s) && Takes(s, step, s') && IsFrame3(f)
    requires AtIdx(s', a, b, 2, KeyOf(f)) && !AtIdx(s, a, b, 2, KeyOf(f))
    ensures Packet(b, a, f) !in s'.net
  {
    ArmsSupplicant(s, step, s', a, b, KeyOf(f));
    Arms(s, step, s', a, b, 2, KeyOf(f));
    StepExtends(s, step, s');
    if Packet(b, a, f) in s.net { SNonceSentBeforeFrame3(s, s', b, a, f); }
  }

  /** A frame 3 exists only for a key whose SNonce was sent. */
  lemma {:induction false} SNonceSentBeforeFrame3(s: State, s': State, b: Mac, a: Mac, f: Frame)
    requires Inv(s) && Extends(s.origin, s'.origin) && Packet(b, a, f) in s.net && IsFrame3(f)
    ensures forall y :: OwnS(s'.origin, a, b, y) && Has(KeyOf(f), y) ==> Sent(s.net, a, b, y)
  {
    Frame3Nonces(s, b, a, f, KeyOf(f));
    var z := Other(KeyOf(f), f.body.nonce);
    var g :| Packet(a, b, g) in s.net && IsFrame2(g) && g.body.nonce == z
        && g.body.counter == f.body.counter - 1 && KeyOf(g) == KeyOf(f);
    assert Sent(s.net, a, b, z);
  }

  /** The frame last sent becomes frame 3 only for an ANonce no frame 3 was sent with. */
  lemma {:induction false} ArmsAuthenticator(s: State, step: Step, s': State, a: Mac, b: Mac, k: Ptk)
    requires Inv(s) && Takes(s, step, s') && AtIdx(s', a, b, 3, k) && !AtIdx(s, a, b, 3, k)
    ensures forall m: nat :: !Confirmed(s.net, a, b, k, m)
  {
    Arms(s, step, s', a, b, 3, k);
    var c := s.nodes[a].peers[b];
    assert CtxInv(s.origin, s.net, a, b, c);
    Frame2Answers(s, a, b, c, step.frame);
    forall m: nat ensures !Confirmed(s.net, a, b, k, m) {
      if Confirmed(s.net, a, b, k, m) {
        var q :| Packet(a, b, q) in s.net && IsFrame3(q) && KeyOf(q) == k && q.body.counter == m;
        Frame3Nonces(s, a, b, q, k);
        assert false;
      }
    }
  }

  lemma {:induction false} ConfirmedGrows(net: set<Packet>, net': set<Packet>, a: Mac, b: Mac, k: Ptk, m: nat)
    requires net <= net' && Confirmed(net, a, b, k, m)
    ensures Confirmed(net', a, b, k, m)
  {
    var q :| Packet(a, b, q) in net && IsFrame3(q) && KeyOf(q) == k && q.body.counter == m;
    assert Packet(a, b, q) in net';
  }

  lemma {:induction false} CounterKept(s: State, step: Step, s': State, a: Mac, b: Mac, k: Ptk)
    requires Inv(s) && Takes(s, step, s') && AtIdx(s', a, b, 3, k) && AtIdx(s, a, b, 3, k)
    ensures s.nodes[a].peers[b].counter <= s'.nodes[a].peers[b].counter
  {
    assert s'.nodes == s.nodes[step.at := React(s.nodes[step.at], step).node];
    if a == step.at { PeerKept(s.nodes[a], step, b); }
  }

  lemma {:induction false} SpentGrows(s: State, step: Step, s': State, a: Mac, b: Mac, k: Ptk, role: Role)
    requires Inv(s) && Takes(s, step, s') && Spent(s, a, b, k, role)
    ensures Spent(s', a, b, k, role)
  {
    StepExtends(s, step, s');
    match role
    case Supplicant =>
      FromBothGrows(s.origin, s'.origin, b, a, k);
      SupplicantKeyOwners(s, s', a, b, k);
      if AtIdx(s', a, b, 2, k) {
        ArmsSupplicant(s, step, s', a, b, k);
        assert false;
      }
    case Authenticator =>
      FromBothGrows(s.origin, s'.origin, a, b, k);
      var m: nat :| Confirmed(s.net, a, b, k, m) && (AtIdx(s, a, b, 3, k) ==> m < s.nodes[a].peers[b].counter);
      ConfirmedGrows(s.net, s'.net, a, b, k, m);
      if AtIdx(s', a, b, 3, k) {
        if !AtIdx(s, a, b, 3, k) {
          ArmsAuthenticator(s, step, s', a, b, k);
          assert false;
        }
        CounterKept(s, step, s', a, b, k);
      }
  }

  lemma {:induction false} SupplicantKeyOwners(s: State, s': State, a: Mac, b: Mac, k: Ptk)
    requires Extends(s.origin, s'.origin) && s.net <= s'.net && FromBoth(s.origin, b, a, k)
    requires forall y :: OwnS(s.origin, a, b, y) && Has(k, y) ==> Sent(s.net, a, b, y)
    ensures forall y :: OwnS(s'.origin, a, b, y) && Has(k, y) ==> Sent(s.net, a, b, y) && Sent(s'.net, a, b, y)
  {
    forall y | OwnS(s'.origin, a, b, y) && Has(k, y) ensures Sent(s.net, a, b, y) && Sent(s'.net, a, b, y) {
      assert OwnS(s.origin, a, b, y);
      var f :| Packet(a, b, f) in s.net && f.body.nonce == y;
      assert Packet(a, b, f) in s'.net;
    }
  }

  /** A key being installed is spent afterwards, and was not installed before. */
  lemma {:induction false} SupplicantSpends(s: State, step: Step, s': State, e: Event)
    requires Inv(s) && Takes(s, step, s') && AllSpent(s)
    requires e in React(s.nodes[step.at], step).events && PtkEvent(e, Supplicant)
    ensures Spent(s', e.node, e.peer, e.ptk, e.role)
    ensures forall d :: d in s.log && d.PtkInstalled? && d.node == e.node ==> d.ptk != e.ptk
  {
    var a, b := step.at, step.peer;
    StepExtends(s, step, s');
    SupplicantInstalls(s, step, e);
    WhoInstalls(s.nodes[a], step, e);
    FromBothGrows(s.origin, s'.origin, b, a, e.ptk);
    SupplicantKeyOwners(s, s', a, b, e.ptk);
    assert React(s.nodes[a], step).node == s'.nodes[a];
    forall d | d in s.log && d.PtkInstalled? && d.node == e.node ensures d.ptk != e.ptk {
      assert Spent(s, d.node, d.peer, d.ptk, d.role);
      if d.ptk == e.ptk { RolesDiffer(s.origin, b, a, d.peer, e.ptk); }
    }
  }

  lemma {:induction false} AuthenticatorSpends(s: State, step: Step, s': State, e: Event)
    requires Inv(s) && Takes(s, step, s') && AllSpent(s)
    requires e in React(s.nodes[step.at], step).events && PtkEvent(e, Authenticator)
    ensures Spent(s', e.node, e.peer, e.ptk, e.role)
    ensures forall d :: d in s.log && d.PtkInstalled? && d.node == e.node ==> d.ptk != e.ptk
  {
    var a, b := step.at, step.peer;
    var c := s.nodes[a].peers[b];
    StepExtends(s, step, s');
    AuthenticatorInstalls(s, step, e);
    WhoInstalls(s.nodes[a], step, e);
    FromBothGrows(s.origin, s'.origin, a, b, e.ptk);
    ConfirmedGrows(s.net, s'.net, a, b, e.ptk, c.counter);
    assert React(s.nodes[a], step).node == s'.nodes[a];
    forall d | d in s.log && d.PtkInstalled? && d.node == e.node ensures d.ptk != e.ptk {
      assert Spent(s, d.node, d.peer, d.ptk, d.role);
      if d.ptk == e.ptk {
        RolesDiffer(s.origin, a, b, d.peer, e.ptk);
        var m: nat :| Confirmed(s.net, a, b, d.ptk, m) && (AtIdx(s, a, b, 3, d.ptk) ==> m < c.counter);
        ConfirmedOnce(s, a, b, d.ptk, m, c.counter);
        assert false;
      }
    }
  }

  lemma {:induction false} Spends(s: State, step: Step, s': State, e: Event)
    requires Inv(s) && Takes(s, step, s') && AllSpent(s)
    requires e in React(s.nodes[step.at], step).events && e.PtkInstalled?
    ensures Spent(s', e.node, e.peer, e.ptk, e.role)
    ensures forall d :: d in s.log && d.PtkInstalled? && d.node == e.node ==> d.ptk != e.ptk
  {
    if e.role == Supplicant { SupplicantSpends(s, step, s', e); } else { AuthenticatorSpends(s, step, s', e); }
  }

  lemma {:induction false} AllSpentStep(s: State, step: Step, s': State)
    requires Inv(s) && Takes(s, step, s') && AllSpent(s)
    ensures AllSpent(s')
  {
    StepExtends(s, step, s');
    forall e | e in s'.log && e.PtkInstalled? ensures Spent(s', e.node, e.peer, e.ptk, e.role) {
      if e in s.log {
        assert Spent(s, e.node, e.peer, e.ptk, e.role);
        SpentGrows(s, step, s', e.node, e.peer, e.ptk, e.role);
      } else {
        Spends(s, step, s', e);
      }
    }
  }

  lemma {:induction false} NoReinstallStep(s: State, step: Step, s': State)
    requires Inv(s) && Takes(s, step, s') && AllSpent(s) && NoReinstall(s.log)
    ensures NoReinstall(s'.log)
  {
    StepExtends(s, step, s');
    var events := React(s.nodes[step.at], step).events;
    forall d, e | d in s.log && e in events ensures Differ(d, e) {
      if e.PtkInstalled? { Spends(s, step, s', e); }
    }
    OneInstall(s.nodes[step.at], step, events);
    NoReinstallAppends(s.log, events, s'.log);
  }

  lemma {:induction false} NoReinstallAppends(log: seq<Event>, events: seq<Event>, log': seq<Event>)
    requires NoReinstall(log) && NoReinstall(events) && log' == log + events
    requires forall d, e :: d in log && e in events ==> Differ(d, e)
    ensures NoReinstall(log')
  {
    forall i, j | 0 <= i < j < |log'| ensures Differ(log'[i], log'[j]) {
      if j < |log| {
        assert Differ(log[i], log[j]);
      } else if i < |log| {
        assert log[i] in log && events[j - |log|] in events;
      } else {
        assert Differ(events[i - |log|], events[j - |log|]);
      }
    }
  }

  /** No step installs two pairwise keys. */
  lemma {:induction false} OneInstall(n: Node, step: Step, events: seq<Event>)
    requires events == React(n, step).events
    ensures NoReinstall(events)
  {
    if !step.Deliver? || !CanBegin(n, step.peer) {
      return;
    }
    if !step.frame.body.pairwise {
      return;
    }
    if n.peers[step.peer].idx <= 1 {
      return;
    }
  }

  /** In every run, no node installs the same pairwise key twice, in either role and for any peer. */
  lemma {:induction false} NoKeyReinstalled(states: seq<State>, steps: seq<Step>, i: nat)
    requires IsRun(states, steps) && i < |states|
    ensures NoReinstall(states[i].log) && AllSpent(states[i])
  {
    if i > 0 {
      NoKeyReinstalled(states, steps, i - 1);
      RunKeepsInv(states, steps, i - 1);
      AllSpentStep(states[i - 1], steps[i - 1], states[i]);
      NoReinstallStep(states[i - 1], steps[i - 1], states[i]);
    }
  }
}
