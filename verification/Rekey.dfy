/** When a link gets a new pairwise key: only after discovery, and not always then. */
module Rekey {
  import opened Base
  import opened Eapol
  import opened Mesh
  import opened MeshProof
  import opened MeshSteps
  import opened Installs
  import opened Session
  import opened Reinstall
  import opened Progress

  // -- Completed supplicants ------------------------------------------------------------------------

  lemma {:induction false} FrozenStep(s: State, step: Step, s': State, a: Mac, b: Mac)
    requires Takes(s, step, s') && HasLink(s, a, b) && Link(s, a, b).idx == 4 && !Starts(step, a, b)
    ensures HasLink(s', a, b) && Link(s', a, b) == Link(s, a, b)
    ensures step.at == a && step.Deliver? && step.peer == b ==> React(s.nodes[a], step).events == []
  {
    var n := s.nodes[step.at];
    assert s'.nodes == s.nodes[step.at := React(n, step).node];
    if a == step.at && (step.NewGtk? || step.peer != b) { OtherPeers(n, step, b); }
  }

  predicate InstallsFrom(e: Event, a: Mac, b: Mac) {
    (e.PtkInstalled? || e.GtkInstalled?) && e.node == a && e.peer == b
  }

  lemma {:induction false} InstallsOnlyFromPeer(n: Node, step: Step, e: Event)
    requires e in React(n, step).events
    ensures step.Deliver? && e.node == n.mac && e.peer == step.peer
  {
  }

  /** In every run, a supplicant that has completed a handshake ignores everything its peer sends,
      PTK rekeys included, until it starts something on the link itself. */
  lemma {:induction false} CompletedSupplicantIsFrozen(states: seq<State>, steps: seq<Step>, i: nat, j: nat, a: Mac,
      b: Mac)
    requires IsRun(states, steps) && i <= j < |states| && HasLink(states[i], a, b) && Link(states[i], a, b).idx == 4
    requires forall k :: i <= k < j ==> !Starts(steps[k], a, b)
    ensures HasLink(states[j], a, b) && Link(states[j], a, b) == Link(states[i], a, b)
    ensures |states[i].log| <= |states[j].log|
    ensures forall k :: |states[i].log| <= k < |states[j].log| ==> !InstallsFrom(states[j].log[k], a, b)
  {
    if i < j {
      CompletedSupplicantIsFrozen(states, steps, i, j - 1, a, b);
      var s, step, s' := states[j - 1], steps[j - 1], states[j];
      assert Takes(s, step, s');
      FrozenStep(s, step, s', a, b);
      RunKeepsInv(states, steps, j - 1);
      StepExtends(s, step, s');
      forall k | |states[i].log| <= k < |s'.log| ensures !InstallsFrom(s'.log[k], a, b) {
        if k >= |s.log| { InstallsOnlyFromPeer(s.nodes[step.at], step, s'.log[k]); }
      }
    }
  }

  // -- Rekeys ---------------------------------------------------------------------------------------

  /** The step installs a pairwise key on a, in the given role towards b. */
  ghost predicate InstallsPtk(s: State, step: Step, a: Mac, b: Mac, role: Role, k: Ptk) {
    Enabled(s, step) && PtkInstalled(a, b, k, role) in React(s.nodes[step.at], step).events
  }

  /** Node a has completed a handshake with b as supplicant, or has begun one as authenticator, since discovery. */
  predicate Past(s: State, a: Mac, b: Mac) { HasLink(s, a, b) && Link(s, a, b).idx in {1, 3, 4} }

  /** A frame is answered as a frame 1 exactly when no frame was sent to the peer since discovery:
      the rekey flag of the frame plays no part. */
  lemma {:induction false} Frame1Answered(n: Node, b: Mac, f: Frame, rnd: Nonce, sent: bool)
    requires rnd != 0
    ensures var r := OnEapol(n, b, f, rnd, sent);
            (r.out.Some? && IsFrame2(r.out.value)) <==>
            (CanBegin(n, b) && n.peers[b].idx == 0 && f.body.pairwise && f.body.nonce != 0
                && f.body.counter > n.peers[b].counter && sent)
  {
  }

  predicate SendsFrame2(s: State, step: Step, a: Mac, b: Mac) {
    step.at == a && HasPeer(step) && step.peer == b && a in s.nodes
    && var out := React(s.nodes[a], step).out; out.Some? && IsFrame2(out.value)
  }

  lemma {:induction false} Frame2Answers1(n: Node, step: Step)
    requires React(n, step).out.Some? && IsFrame2(React(n, step).out.value)
    ensures step.Deliver?
  {
  }

  lemma {:induction false} PastStep(s: State, step: Step, s': State, a: Mac, b: Mac)
    requires Inv(s) && Takes(s, step, s') && Past(s, a, b) && !Resets(step, a, b)
    ensures Past(s', a, b) && !SendsFrame2(s, step, a, b)
    ensures forall k :: !InstallsPtk(s, step, a, b, Supplicant, k)
  {
    var n := s.nodes[step.at];
    assert s'.nodes == s.nodes[step.at := React(n, step).node];
    LinkKept(s, step, s', a, b);
    if SendsFrame2(s, step, a, b) {
      Frame2Answers1(n, step);
      Frame1Answered(n, b, step.frame, step.rnd, step.sent);
    }
    forall k ensures !InstallsPtk(s, step, a, b, Supplicant, k) {
      if InstallsPtk(s, step, a, b, Supplicant, k) { WhoInstalls(n, step, PtkInstalled(a, b, k, Supplicant)); }
    }
  }

  /** In every run, once a node has completed a handshake as supplicant or begun one as authenticator, it answers no
      frame 1 of its peer, rekeys included, until it resets the link. */
  lemma {:induction false} RekeyNotAnswered(states: seq<State>, steps: seq<Step>, i: nat, j: nat, a: Mac, b: Mac)
    requires IsRun(states, steps) && i <= j < |states| && Past(states[i], a, b)
    requires forall k :: i <= k < j ==> !Resets(steps[k], a, b)
    ensures Past(states[j], a, b)
    ensures j < |steps| && !Resets(steps[j], a, b) ==> !SendsFrame2(states[j], steps[j], a, b)
  {
    if i < j {
      RekeyNotAnswered(states, steps, i, j - 1, a, b);
      RunKeepsInv(states, steps, j - 1);
      assert Takes(states[j - 1], steps[j - 1], states[j]);
      PastStep(states[j - 1], steps[j - 1], states[j], a, b);
    }
    if j < |steps| && !Resets(steps[j], a, b) {
      RunKeepsInv(states, steps, j);
      assert Takes(states[j], steps[j], states[j + 1]);
      PastStep(states[j], steps[j], states[j + 1], a, b);
    }
  }

  lemma {:induction false} CompletesPast(s: State, step: Step, s': State, a: Mac, b: Mac, k: Ptk)
    requires Inv(s) && Takes(s, step, s') && InstallsPtk(s, step, a, b, Supplicant, k)
    ensures Past(s', a, b) && step.at == a && step.peer == b
  {
    var n := s.nodes[step.at];
    WhoInstalls(n, step, PtkInstalled(a, b, k, Supplicant));
    assert s'.nodes == s.nodes[step.at := React(n, step).node];
  }

  /** In every run, whichever side asks for a rekey: between two pairwise keys that a supplicant installs from the same
      peer it has reset the link, so a rekey alone never gives it a new one. */
  lemma {:induction false} RekeyNeedsReset(states: seq<State>, steps: seq<Step>, i: nat, j: nat, a: Mac, b: Mac, k: Ptk,
      l: Ptk)
    requires IsRun(states, steps) && i < j < |steps|
    requires InstallsPtk(states[i], steps[i], a, b, Supplicant, k)
    requires InstallsPtk(states[j], steps[j], a, b, Supplicant, l)
    ensures exists r :: i < r < j && Resets(steps[r], a, b)
  {
    assert Takes(states[i], steps[i], states[i + 1]) && Takes(states[j], steps[j], states[j + 1]);
    RunKeepsInv(states, steps, i);
    RunKeepsInv(states, steps, j);
    CompletesPast(states[i], steps[i], states[i + 1], a, b, k);
    if forall r :: i + 1 <= r < j ==> !Resets(steps[r], a, b) {
      RekeyNotAnswered(states, steps, i + 1, j, a, b);
      WhoInstalls(states[j].nodes[steps[j].at], steps[j], PtkInstalled(a, b, l, Supplicant));
      assert false;
    }
  }

  lemma {:induction false} LoggedAt(states: seq<State>, steps: seq<Step>, i: nat, e: Event) returns (k: nat)
    requires IsRun(states, steps) && i < |states| && e in states[i].log
    ensures k < i && Takes(states[k], steps[k], states[k + 1])
    ensures e in React(states[k].nodes[steps[k].at], steps[k]).events
  {
    RunKeepsInv(states, steps, i - 1);
    assert Takes(states[i - 1], steps[i - 1], states[i]);
    StepExtends(states[i - 1], steps[i - 1], states[i]);
    if e in states[i - 1].log {
      k := LoggedAt(states, steps, i - 1, e);
    } else {
      k := i - 1;
    }
  }

  /** The supplicant's side of an authenticator's installation. */
  lemma {:induction false} Counterpart(states: seq<State>, steps: seq<Step>, i: nat, a: Mac, b: Mac, k: Ptk)
      returns (p: nat)
    requires IsRun(states, steps) && i < |steps| && InstallsPtk(states[i], steps[i], a, b, Authenticator, k)
    ensures p < i && InstallsPtk(states[p], steps[p], b, a, Supplicant, k)
  {
    RunKeepsInv(states, steps, i);
    AuthenticatorInstalls(states[i], steps[i], PtkInstalled(a, b, k, Authenticator));
    p := LoggedAt(states, steps, i, PtkInstalled(b, a, k, Supplicant));
  }

  lemma {:induction false} LogGrows(states: seq<State>, steps: seq<Step>, i: nat, j: nat)
    requires IsRun(states, steps) && i < j < |states|
    ensures Takes(states[i], steps[i], states[i + 1])
    ensures forall e :: e in React(states[i].nodes[steps[i].at], steps[i]).events ==> e in states[j].log
  {
    RunKeepsInv(states, steps, j - 1);
    assert Takes(states[j - 1], steps[j - 1], states[j]);
    StepExtends(states[j - 1], steps[j - 1], states[j]);
    if i < j - 1 { LogGrows(states, steps, i, j - 1); }
  }

  lemma {:induction false} KeysDiffer(states: seq<State>, steps: seq<Step>, i: nat, j: nat, a: Mac, b: Mac, k: Ptk,
      l: Ptk)
    requires IsRun(states, steps) && i < j < |steps|
    requires InstallsPtk(states[i], steps[i], a, b, Authenticator, k)
    requires InstallsPtk(states[j], steps[j], a, b, Authenticator, l)
    ensures k != l
  {
    LogGrows(states, steps, i, j);
    RunKeepsInv(states, steps, j);
    assert Takes(states[j], steps[j], states[j + 1]);
    NoKeyReinstalled(states, steps, j);
    Spends(states[j], steps[j], states[j + 1], PtkInstalled(a, b, l, Authenticator));
    assert PtkInstalled(a, b, k, Authenticator) in states[j].log;
  }

  /** The same for an authenticator: before its second pairwise key for a peer, the peer has installed two as supplicant
      and reset the link in between. */
  lemma {:induction false} AuthenticatorNeedsReset(states: seq<State>, steps: seq<Step>, i: nat, j: nat, a: Mac, b: Mac,
      k: Ptk, l: Ptk) returns (p: nat, r: nat, q: nat)
    requires IsRun(states, steps) && i < j < |steps|
    requires InstallsPtk(states[i], steps[i], a, b, Authenticator, k)
    requires InstallsPtk(states[j], steps[j], a, b, Authenticator, l)
    ensures p < r < q < j && Resets(steps[r], b, a)
    ensures || (InstallsPtk(states[p], steps[p], b, a, Supplicant, k)
                && InstallsPtk(states[q], steps[q], b, a, Supplicant, l))
            || (InstallsPtk(states[p], steps[p], b, a, Supplicant, l)
                && InstallsPtk(states[q], steps[q], b, a, Supplicant, k))
  {
    KeysDiffer(states, steps, i, j, a, b, k, l);
    p := Counterpart(states, steps, i, a, b, k);
    q := Counterpart(states, steps, j, a, b, l);
    if p == q {
      WhoInstalls(states[p].nodes[steps[p].at], steps[p], PtkInstalled(b, a, k, Supplicant));
      assert false;
    } else if p < q {
      RekeyNeedsReset(states, steps, p, q, b, a, k, l);
      r :| p < r < q && Resets(steps[r], b, a);
    } else {
      RekeyNeedsReset(states, steps, q, p, b, a, l, k);
      r :| q < r < p && Resets(steps[r], b, a);
      p, q := q, p;
    }
  }

  // -- A supplicant that waits for nothing ----------------------------------------------------------

  /** Node b has answered the frame 1 with ANonce x, for which its peer has sent no frame 3 and which it no longer
      has. */
  ghost predicate Stuck(s: State, a: Mac, b: Mac, x: Nonce) {
    && a != b && Own(s.origin, a, b, x) && NoFrame3(s.net, a, b, x)
    && HasLink(s, b, a) && Link(s, b, a).idx == 2 && Link(s, b, a).aNonce == x
    && (HasLink(s, a, b) ==> Link(s, a, b).aNonce != x)
  }

  lemma {:induction false} EapolANonce(n: Node, src: Mac, f: Frame, rnd: Nonce, sent: bool)
    requires src in n.peers
    ensures var r := OnEapol(n, src, f, rnd, sent);
            src in r.node.peers && r.node.peers[src].aNonce in {n.peers[src].aNonce, f.body.nonce}
  {
    if !CanBegin(n, src) {
      return;
    }
    if !f.body.pairwise {
      return;
    }
    if n.peers[src].idx <= 1 {
      return;
    }
  }

  lemma {:induction false} EapolFrame3(n: Node, src: Mac, f: Frame, rnd: Nonce, sent: bool)
    requires src in n.peers
    ensures var r := OnEapol(n, src, f, rnd, sent);
            r.out.Some? && IsFrame3(r.out.value) ==> r.out.value.body.nonce == n.peers[src].aNonce
  {
    if !CanBegin(n, src) {
      return;
    }
    if !f.body.pairwise {
      return;
    }
    if n.peers[src].idx <= 1 {
      return;
    }
  }

  /** The ANonce of a context after a step: the one before, none, a new one, or one received in a frame. */
  lemma {:induction false} ANonceAfter(n: Node, step: Step, b: Mac)
    requires b in React(n, step).node.peers && HasPeer(step) && step.peer == b
    ensures var x := React(n, step).node.peers[b].aNonce;
            || x == 0 || (b in n.peers && x == n.peers[b].aNonce)
            || (!step.DiscoveryResponse? && !step.GroupSend? && x == step.rnd)
            || (step.Deliver? && x == step.frame.body.nonce)
  {
    if step.Deliver? && b in n.peers { EapolANonce(n, b, step.frame, step.rnd, step.sent); }
  }

  /** An ANonce that a node has given up does not come back to it. */
  lemma {:induction false} ANonceGone(s: State, step: Step, a: Mac, b: Mac, x: Nonce)
    requires Inv(s) && Enabled(s, step) && step.at == a && a != b && Own(s.origin, a, b, x)
    requires HasLink(s, a, b) ==> Link(s, a, b).aNonce != x
    ensures var n' := React(s.nodes[a], step).node;
            b in n'.peers ==> n'.peers[b].aNonce != x
  {
    var n := s.nodes[a];
    if HasPeer(step) && step.peer == b {
      if b in React(n, step).node.peers { ANonceAfter(n, step, b); }
      if step.Deliver? && step.frame.body.nonce == x { NonceOwner(s, b, a, step.frame); }
    } else if !step.Restart? {
      OtherPeers(n, step, b);
    }
  }

  lemma {:induction false} NoFrame3Sent(s: State, step: Step, s': State, a: Mac, b: Mac, x: Nonce)
    requires Takes(s, step, s') && NoFrame3(s.net, a, b, x) && (HasLink(s, a, b) ==> Link(s, a, b).aNonce != x)
    ensures NoFrame3(s'.net, a, b, x)
  {
    var n := s.nodes[step.at];
    forall f | Packet(a, b, f) in s'.net && IsFrame3(f) ensures f.body.nonce != x {
      if Packet(a, b, f) !in s.net {
        assert Packet(step.at, PeerOf(step), React(n, step).out.value) == Packet(a, b, f);
        Frame3Nonce(n, step);
      }
    }
  }

  lemma {:induction false} Frame3Nonce(n: Node, step: Step)
    requires React(n, step).out.Some? && IsFrame3(React(n, step).out.value)
    ensures step.Deliver? && step.peer in n.peers
    ensures React(n, step).out.value.body.nonce == n.peers[step.peer].aNonce
  {
    if step.Deliver? && step.peer in n.peers { EapolFrame3(n, step.peer, step.frame, step.rnd, step.sent); }
  }

  lemma {:induction false} StuckStep(s: State, step: Step, s': State, a: Mac, b: Mac, x: Nonce)
    requires Inv(s) && Takes(s, step, s') && Stuck(s, a, b, x) && !Starts(step, b, a)
    ensures Stuck(s', a, b, x) && Link(s', b, a) == Link(s, b, a)
    ensures forall e :: e in React(s.nodes[step.at], step).events ==> !InstallsFrom(e, b, a)
  {
    var n := s.nodes[step.at];
    assert s'.nodes == s.nodes[step.at := React(n, step).node];
    StepExtends(s, step, s');
    NoFrame3Sent(s, step, s', a, b, x);
    if step.at == a { ANonceGone(s, step, a, b, x); }
    forall e | e in React(n, step).events ensures !InstallsFrom(e, b, a) {
      InstallsOnlyFromPeer(n, step, e);
    }
    if step.at == b && (step.NewGtk? || step.peer != a) { OtherPeers(n, step, a); }
  }

  /** In every run, such a supplicant installs nothing from its peer, whatever arrives, until it starts something on the
      link itself. */
  lemma {:induction false} StaysStuck(states: seq<State>, steps: seq<Step>, i: nat, j: nat, a: Mac, b: Mac, x: Nonce)
    requires IsRun(states, steps) && i <= j < |states| && Stuck(states[i], a, b, x)
    requires forall k :: i <= k < j ==> !Starts(steps[k], b, a)
    ensures Stuck(states[j], a, b, x) && Link(states[j], b, a) == Link(states[i], b, a)
    ensures |states[i].log| <= |states[j].log|
    ensures forall k :: |states[i].log| <= k < |states[j].log| ==> !InstallsFrom(states[j].log[k], b, a)
  {
    if i < j {
      StaysStuck(states, steps, i, j - 1, a, b, x);
      var s, step, s' := states[j - 1], steps[j - 1], states[j];
      RunKeepsInv(states, steps, j - 1);
      assert Takes(s, step, s');
      StuckStep(s, step, s', a, b, x);
      StepExtends(s, step, s');
      forall k | |states[i].log| <= k < |s'.log| ensures !InstallsFrom(s'.log[k], b, a) {
        if k >= |s.log| { assert s'.log[k] in React(s.nodes[step.at], step).events; }
      }
    }
  }
}
