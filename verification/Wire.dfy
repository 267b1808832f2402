/** What the frames of a mesh say, over every run: each frame 1 is traced to the step that sent it, each frame 2 to the
    frame it answers. */
module Wire {
  import opened Base
  import opened Eapol
  import opened Mesh
  import opened MeshSteps
  import opened Installs

  /** The frame goes out in step k. */
  ghost predicate SentIn(states: seq<State>, steps: seq<Step>, k: nat, p: Packet) {
    && k < |steps| < |states| && Takes(states[k], steps[k], states[k + 1]) && HasPeer(steps[k])
    && p == Packet(steps[k].at, steps[k].peer, p.frame)
    && React(states[k].nodes[steps[k].at], steps[k]).out == Some(p.frame)
  }

  lemma {:induction false} SendsTowardsPeer(n: Node, step: Step)
    requires React(n, step).out.Some?
    ensures HasPeer(step)
  {
  }

  /** Every frame on the network was sent in some step. */
  lemma {:induction false} SentOnce(states: seq<State>, steps: seq<Step>, i: nat, p: Packet) returns (k: nat)
    requires IsRun(states, steps) && i < |states| && p in states[i].net
    ensures k < i && SentIn(states, steps, k, p)
  {
    var s, step, s' := states[i - 1], steps[i - 1], states[i];
    assert Takes(s, step, s');
    if p in s.net {
      k := SentOnce(states, steps, i - 1, p);
    } else {
      k := i - 1;
      SendsTowardsPeer(s.nodes[step.at], step);
    }
  }

  /** The step begins a handshake, as a rekey or after a discovery. */
  predicate Begins(step: Step, rekey: bool) {
    if rekey then step.RekeyPtk? && step.sent else step.DiscoveryRequest? && step.responded && step.sent
  }

  lemma {:induction false} Frame1Begins(n: Node, step: Step)
    requires React(n, step).out.Some? && IsFrame1(React(n, step).out.value)
    ensures Begins(step, step.RekeyPtk?) && React(n, step).out.value.body.nonce == step.rnd
    ensures React(n, step).out.value.body.secure == step.RekeyPtk?
    ensures React(n, step).out.value.body.counter == if step.RekeyPtk? then CounterOf(n, step.peer) + 1 else 1
  {
  }

  /** In every run, every frame 1 was sent by a step that began a handshake with its receiver.  It carries the PMKID of
      the two, the nonce that step drew and the next replay counter, and its secure bit says whether it was a rekey. */
  lemma {:induction false} Frame1Says(states: seq<State>, steps: seq<Step>, i: nat, p: Packet) returns (k: nat)
    requires IsRun(states, steps) && i < |states| && p in states[i].net && IsFrame1(p.frame)
    ensures k < i && SentIn(states, steps, k, p) && Begins(steps[k], p.frame.body.secure)
    ensures p.frame.body.nonce == steps[k].rnd && p.frame.body.data == PmkidKde(PairPmk(p.src, p.dst))
    ensures p.frame.body.counter
         == if p.frame.body.secure then CounterOf(states[k].nodes[p.src], p.dst) + 1 else 1
  {
    k := SentOnce(states, steps, i, p);
    Frame1Begins(states[k].nodes[steps[k].at], steps[k]);
    RunKeepsInv(states, steps, i);
    assert FrameInv(states[i].origin, states[i].net, states[i].log, p.src, p.dst, p.frame);
  }

  /** In every run, every frame 2 answers a pairwise frame from its receiver: it has the counter and the secure bit of
      that frame, and is signed with the key derived from the PMK of the two and both nonces. */
  lemma {:induction false} Frame2Mirrors(states: seq<State>, steps: seq<Step>, i: nat, p: Packet) returns (q: Packet)
    requires IsRun(states, steps) && i < |states| && p in states[i].net && IsFrame2(p.frame)
    ensures q in states[i].net && q.src == p.dst && q.dst == p.src && q.frame.body.pairwise
    ensures p.frame.body.counter == q.frame.body.counter && p.frame.body.secure == q.frame.body.secure
    ensures p.frame.tag == Tag(LinkKey(p.src, p.dst, q.frame.body.nonce, p.frame.body.nonce), p.frame.body)
  {
    var s, a, b, f := states[i], p.src, p.dst, p.frame;
    RunKeepsInv(states, steps, i);
    assert FrameInv(s.origin, s.net, s.log, a, b, f);
    var x := Other(KeyOf(f), f.body.nonce);
    var g :| Packet(b, a, g) in s.net && g.body.pairwise && g.body.nonce == x && g.body.counter == f.body.counter
        && g.body.secure == f.body.secure;
    q := Packet(b, a, g);
    SignedAsSent(states, steps, i, p);
  }

  /** Every MIC on the network is that of the frame it is in. */
  lemma {:induction false} SignedAsSent(states: seq<State>, steps: seq<Step>, i: nat, p: Packet)
    requires IsRun(states, steps) && i < |states| && p in states[i].net
    ensures p.frame.tag == if p.frame.body.mic then Tag(KeyOf(p.frame), p.frame.body) else NoTag
  {
    var k := SentOnce(states, steps, i, p);
    OutIsSigned(states[k].nodes[steps[k].at], steps[k]);
  }

  lemma {:induction false} OutIsSigned(n: Node, step: Step)
    requires React(n, step).out.Some?
    ensures var f := React(n, step).out.value;
            f.tag == if f.body.mic then Tag(KeyOf(f), f.body) else NoTag
  {
  }

  /** In every run, when an authenticator accepts a frame 2 and goes on to frame 3, some earlier step of its own began
      that handshake: it drew the ANonce of both frames, and frame 2 has the secure bit of its rekey flag. */
  lemma {:induction false} AcceptedFrame2(states: seq<State>, steps: seq<Step>, i: nat) returns (k: nat)
    requires IsRun(states, steps) && i < |steps| && steps[i].Deliver? && steps[i].at in states[i].nodes
    requires var out := React(states[i].nodes[steps[i].at], steps[i]).out;
             out.Some? && IsFrame3(out.value)
    ensures k < i && steps[k].at == steps[i].at && Begins(steps[k], steps[i].frame.body.secure)
    ensures steps[k].peer == steps[i].peer
    ensures steps[k].rnd == React(states[i].nodes[steps[i].at], steps[i]).out.value.body.nonce
  {
    var s, a, b, f := states[i], steps[i].at, steps[i].peer, steps[i].frame;
    assert Takes(s, steps[i], states[i + 1]);
    RunKeepsInv(states, steps, i);
    var c := s.nodes[a].peers[b];
    Frame3From(s.nodes[a], steps[i]);
    assert CtxInv(s.origin, s.net, a, b, c);
    Frame2Answers(s, a, b, c, f);
    var q := Frame2Mirrors(states, steps, i, Packet(b, a, f));
    assert FrameInv(s.origin, s.net, s.log, a, b, q.frame) && FrameInv(s.origin, s.net, s.log, b, a, f);
    k := Frame1Says(states, steps, i, q);
  }

  lemma {:induction false} Frame3From(n: Node, step: Step)
    requires step.Deliver? && React(n, step).out.Some? && IsFrame3(React(n, step).out.value)
    ensures CanBegin(n, step.peer) && n.peers[step.peer].idx == 1 && step.frame.body.pairwise
    ensures var c := n.peers[step.peer];
            && step.frame.body.counter == c.counter && step.frame.body.nonce != 0
            && VerifyMic(ComputePtk(c.pmk, step.peer, n.mac, c.aNonce, step.frame.body.nonce), step.frame)
            && React(n, step).out.value.body.nonce == c.aNonce
  {
  }
}
