/** Progress and replay of the handshakes over whole runs of a mesh. */
module Progress {
  import opened Base
  import opened Eapol
  import opened Mesh
  import opened MeshSteps
  import opened Installs
  import opened Session
  import opened Reinstall

  predicate HasLink(s: State, a: Mac, b: Mac) { a in s.nodes && b in s.nodes[a].peers }

  function Link(s: State, a: Mac, b: Mac): Ctx
    requires HasLink(s, a, b)
  {
    s.nodes[a].peers[b]
  }

  /** Node a itself starts something towards b: discovery, a rekey or a group handshake, or all over again. */
  predicate Starts(step: Step, a: Mac, b: Mac) {
    step.at == a && (step.Restart? || (HasPeer(step) && !step.Deliver? && step.peer == b))
  }

  /** The reflexive and transitive closure of Session.Advances. */
  predicate Reaches(before: nat, after: nat) {
    Advances(before, after) || (before, after) == (0, 4)
  }

  lemma {:induction false} LinkKept(s: State, step: Step, s': State, a: Mac, b: Mac)
    requires Takes(s, step, s') && HasLink(s, a, b)
    ensures !Resets(step, a, b) ==> HasLink(s', a, b) && Link(s, a, b).counter <= Link(s', a, b).counter
    ensures !Starts(step, a, b) ==> HasLink(s', a, b) && Advances(Link(s, a, b).idx, Link(s', a, b).idx)
  {
    var n := s.nodes[step.at];
    assert s'.nodes == s.nodes[step.at := React(n, step).node];
    if a == step.at && !step.Restart? {
      PeerKept(n, step, b);
      if step.NewGtk? || step.peer != b {
        OtherPeers(n, step, b);
      } else if step.Deliver? {
        DeliverAdvances(n, step);
      }
    }
  }

  // -- The replay counter ---------------------------------------------------------------------------

  /** The replay counter of a link; that of an unknown peer is 0. */
  function CounterAt(s: State, a: Mac, b: Mac): nat { if a in s.nodes then CounterOf(s.nodes[a], b) else 0 }

  /** The step resets the link and leaves it with a lower counter: 1 if frame 1 follows at once, and 0 otherwise. */
  predicate LowersCounter(s: State, step: Step, a: Mac, b: Mac) {
    Resets(step, a, b) && CounterAt(s, a, b) > if step.DiscoveryRequest? && step.responded then 1 else 0
  }

  lemma {:induction false} CounterFallsIff(s: State, step: Step, s': State, a: Mac, b: Mac)
    requires Takes(s, step, s')
    ensures CounterAt(s', a, b) < CounterAt(s, a, b) <==> LowersCounter(s, step, a, b)
  {
    assert s'.nodes == s.nodes[step.at := React(s.nodes[step.at], step).node];
    if HasLink(s, a, b) && !Resets(step, a, b) { LinkKept(s, step, s', a, b); }
  }

  /** No step from i to j lowers the counter. */
  ghost predicate NeverLowered(states: seq<State>, steps: seq<Step>, i: nat, j: nat, a: Mac, b: Mac)
    requires j <= |steps| < |states|
  {
    forall k {:trigger LowersCounter(states[k], steps[k], a, b)} :: i <= k < j ==>
      !LowersCounter(states[k], steps[k], a, b)
  }

  lemma {:induction false} CounterNeverDecreases(states: seq<State>, steps: seq<Step>, i: nat, j: nat, a: Mac, b: Mac)
    requires IsRun(states, steps) && i <= j < |states|
    requires NeverLowered(states, steps, i, j, a, b)
    ensures CounterAt(states[i], a, b) <= CounterAt(states[j], a, b)
  {
    if i < j {
      CounterNeverDecreases(states, steps, i, j - 1, a, b);
      var s, step, s' := states[j - 1], steps[j - 1], states[j];
      assert Takes(s, step, s') && !LowersCounter(s, step, a, b);
      CounterFallsIff(s, step, s', a, b);
    }
  }

  /** In every run, the replay counter of a link never decreases exactly when no discovery and no restart meets a
      counter above the one it leaves. */
  lemma {:induction false} CounterNeverDecreasesIff(states: seq<State>, steps: seq<Step>, a: Mac, b: Mac)
    requires IsRun(states, steps)
    ensures (forall i, j :: 0 <= i <= j < |states| ==> CounterAt(states[i], a, b) <= CounterAt(states[j], a, b)) <==>
            NeverLowered(states, steps, 0, |steps|, a, b)
  {
    if !NeverLowered(states, steps, 0, |steps|, a, b) {
      var k :| 0 <= k < |steps| && LowersCounter(states[k], steps[k], a, b);
      assert Takes(states[k], steps[k], states[k + 1]);
      CounterFallsIff(states[k], steps[k], states[k + 1], a, b);
    } else {
      forall i, j | 0 <= i <= j < |states| ensures CounterAt(states[i], a, b) <= CounterAt(states[j], a, b) {
        CounterNeverDecreases(states, steps, i, j, a, b);
      }
    }
  }

  /** In every run, until a node starts something new on a link, the frame it last sent there only
      advances: 2 and then 4 as a supplicant, 1 and then 3 as an authenticator. */
  lemma {:induction false} OnlyAdvances(states: seq<State>, steps: seq<Step>, i: nat, j: nat, a: Mac, b: Mac)
    requires IsRun(states, steps) && i <= j < |states| && HasLink(states[i], a, b)
    requires forall k :: i <= k < j ==> !Starts(steps[k], a, b)
    ensures HasLink(states[j], a, b) && Reaches(Link(states[i], a, b).idx, Link(states[j], a, b).idx)
  {
    if i < j {
      OnlyAdvances(states, steps, i, j - 1, a, b);
      assert Takes(states[j - 1], steps[j - 1], states[j]);
      LinkKept(states[j - 1], steps[j - 1], states[j], a, b);
    }
  }

  // -- Replay ---------------------------------------------------------------------------------------

  /** The delivery changes the node, sends something or installs something. */
  predicate HasEffect(n: Node, step: Step) {
    var r := React(n, step);
    r.node != n || r.out != None || r.events != []
  }

  predicate TakesEffect(s: State, step: Step) { Enabled(s, step) && HasEffect(s.nodes[step.at], step) }

  /** A frame 3 that a supplicant's context accepts. */
  predicate Accepts3(c: Ctx, f: Frame) {
    f.body.pairwise && f.body.nonce == c.aNonce && VerifyMic(c.kck, f) && CarriesGtk(c.kek, f.body.data)
  }

  /** While a node waits for an authenticator's frame, a frame has an effect exactly when it is ahead of the counter and
      either no frame was sent since discovery or it is the frame 3 waited for; then the counter catches up with it. */
  lemma {:induction false} EffectIff(n: Node, step: Step)
    requires step.Deliver? && CanBegin(n, step.peer) && n.peers[step.peer].idx !in {1, 3}
    ensures var c := n.peers[step.peer];
            HasEffect(n, step) <==>
            step.frame.body.counter > c.counter && (c.idx == 0 || (c.idx == 2 && Accepts3(c, step.frame)))
    ensures HasEffect(n, step) ==> step.frame.body.counter <= CounterOf(React(n, step).node, step.peer)
  {
    SameCtx(n, step.peer);
  }

  /** The link is not in the middle of a handshake as an authenticator. */
  predicate NotAuthenticating(s: State, a: Mac, b: Mac) { HasLink(s, a, b) ==> Link(s, a, b).idx !in {1, 3} }

  lemma {:induction false} Effective(s: State, step: Step)
    requires step.Deliver? && TakesEffect(s, step)
    ensures CanBegin(s.nodes[step.at], step.peer)
  {
  }

  /** In every run, a frame that took effect on a supplicant takes effect there again exactly when it finds the link as
      discovery leaves it, with a counter behind the frame's; and for that some step in between lowered the counter. */
  lemma {:induction false} ReplayIff(states: seq<State>, steps: seq<Step>, i: nat, j: nat)
    requires IsRun(states, steps) && i < j < |steps|
    requires steps[i].Deliver? && steps[j].Deliver? && steps[i].at == steps[j].at && steps[i].peer == steps[j].peer
    requires steps[i].frame == steps[j].frame && TakesEffect(states[i], steps[i])
    requires NotAuthenticating(states[i], steps[i].at, steps[i].peer)
    requires NotAuthenticating(states[j], steps[i].at, steps[i].peer)
    ensures var a, b := steps[i].at, steps[i].peer;
            && (TakesEffect(states[j], steps[j]) <==>
                Enabled(states[j], steps[j]) && CanBegin(states[j].nodes[a], b) && Link(states[j], a, b).idx == 0
                && Link(states[j], a, b).counter < steps[j].frame.body.counter)
            && (TakesEffect(states[j], steps[j]) ==>
                exists k :: i < k < j && LowersCounter(states[k], steps[k], a, b))
  {
    var a, b, f := steps[i].at, steps[i].peer, steps[i].frame;
    assert Takes(states[i], steps[i], states[i + 1]) && Takes(states[j], steps[j], states[j + 1]);
    Effective(states[i], steps[i]);
    EffectIff(states[i].nodes[a], steps[i]);
    assert CounterAt(states[i + 1], a, b) >= f.body.counter;
    if CanBegin(states[j].nodes[a], b) {
      EffectIff(states[j].nodes[a], steps[j]);
      if TakesEffect(states[j], steps[j]) {
        if NeverLowered(states, steps, i + 1, j, a, b) {
          CounterNeverDecreases(states, steps, i + 1, j, a, b);
          assert false;
        }
        var k :| i < k < j && LowersCounter(states[k], steps[k], a, b);
        if IsFrame3(f) { OldFrame3Refused(states, steps, i, k, j, a, b, f); }
      }
    } else if TakesEffect(states[j], steps[j]) {
      Effective(states[j], steps[j]);
    }
  }

  /** Once the link was reset, the frames 3 sent before never fit its key again. */
  lemma {:induction false} OldFrame3Refused(states: seq<State>, steps: seq<Step>, i: nat, k: nat, j: nat, a: Mac,
      b: Mac, f: Frame)
    requires IsRun(states, steps) && i <= k < j < |states| && Resets(steps[k], a, b)
    requires Packet(b, a, f) in states[i].net && IsFrame3(f)
    ensures Packet(b, a, f) in states[j - 1].net && !AtIdx(states[j], a, b, 2, KeyOf(f))
    decreases j
  {
    var s, step, s' := states[j - 1], steps[j - 1], states[j];
    assert Takes(s, step, s');
    RunKeepsInv(states, steps, j - 1);
    NetGrows(states, steps, i, j - 1);
    StepExtends(s, step, s');
    if j - 1 == k {
      ResetIdx(s.nodes[step.at], step, b);
    } else {
      OldFrame3Refused(states, steps, i, k, j - 1, a, b, f);
      if AtIdx(s', a, b, 2, KeyOf(f)) { NewlyArmed(s, step, s', b, a, f); }
    }
  }

  lemma {:induction false} ResetIdx(n: Node, step: Step, b: Mac)
    requires Resets(step, step.at, b)
    ensures b in React(n, step).node.peers ==> React(n, step).node.peers[b].idx <= 1
  {
  }

  lemma {:induction false} NetGrows(states: seq<State>, steps: seq<Step>, i: nat, j: nat)
    requires IsRun(states, steps) && i <= j < |states|
    ensures states[i].net <= states[j].net
  {
    if i < j {
      NetGrows(states, steps, i, j - 1);
      RunKeepsInv(states, steps, j - 1);
      StepExtends(states[j - 1], steps[j - 1], states[j]);
    }
  }

  lemma {:induction false} FramesCount(states: seq<State>, steps: seq<Step>, i: nat)
    requires IsRun(states, steps) && i < |states|
    ensures forall p :: p in states[i].net ==> p.frame.body.counter > 0
  {
    if i > 0 {
      FramesCount(states, steps, i - 1);
      var s, step, s' := states[i - 1], steps[i - 1], states[i];
      assert Takes(s, step, s');
      forall p | p in s'.net ensures p.frame.body.counter > 0 {
        if p !in s.net {
          assert p.frame == React(s.nodes[step.at], step).out.value;
          SentCounts(s.nodes[step.at], step);
        }
      }
    }
  }

  lemma {:induction false} SentCounts(n: Node, step: Step)
    requires React(n, step).out.Some?
    ensures React(n, step).out.value.body.counter > 0
  {
  }

  /** In every run, whatever was ever sent to a node takes effect, again if it did before, when it arrives next after
      the node has handled a discovery response from the sender. */
  lemma {:induction false} DiscoveryReopens(states: seq<State>, steps: seq<Step>, a: Mac, b: Mac, f: Frame, rnd: Nonce,
      sent: bool)
    requires IsRun(states, steps) && a in states[|steps|].nodes && Unused(states[|steps|], rnd)
    requires Packet(b, a, f) in states[|steps|].net
    ensures Enabled(states[|steps|], DiscoveryResponse(a, b))
    ensures TakesEffect(Apply(states[|steps|], DiscoveryResponse(a, b)), Deliver(a, b, f, rnd, sent))
  {
    var s := states[|steps|];
    RunKeepsInv(states, steps, |steps|);
    FramesCount(states, steps, |steps|);
    assert FrameInv(s.origin, s.net, s.log, b, a, f);
    var s1 := Apply(s, DiscoveryResponse(a, b));
    EffectIff(s1.nodes[a], Deliver(a, b, f, rnd, sent));
  }
}
