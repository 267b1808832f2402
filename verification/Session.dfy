/** How the context of one link moves during a run. */
module Session {
  import opened Eapol
  import opened Mesh

  /** The moves of the frame last sent that a received frame can cause: the supplicant goes from
      nothing to frame 2 to frame 4, the authenticator from frame 1 to frame 3. */
  predicate Advances(before: nat, after: nat) {
    after == before || (before, after) == (0, 2) || (before, after) == (2, 4) || (before, after) == (1, 3)
  }

  /** Node a drops what it knows of its link to b: it replaces the context in a discovery with b, or restarts. */
  predicate Resets(step: Step, a: Mac, b: Mac) {
    step.at == a && (step.Restart? || ((step.DiscoveryRequest? || step.DiscoveryResponse?) && step.peer == b))
  }

  /** The contexts of the other peers are left alone. */
  predicate SamePeer(n: Node, n': Node, b: Mac) {
    (b in n'.peers <==> b in n.peers) && (b in n.peers ==> n'.peers[b] == n.peers[b])
  }

  lemma {:induction false} OtherPeersEapol(n: Node, src: Mac, f: Frame, rnd: Nonce, sent: bool, b: Mac)
    requires b != src
    ensures SamePeer(n, OnEapol(n, src, f, rnd, sent).node, b)
  {
    if !CanBegin(n, src) {
      return;
    }
    var c := n.peers[src];
    if !f.body.pairwise {
      return;
    }
    if c.idx <= 1 {
      return;
    }
  }

  lemma {:induction false} OtherPeers(n: Node, step: Step, b: Mac)
    requires step.NewGtk? || (!step.Restart? && b != step.peer)
    ensures SamePeer(n, React(n, step).node, b)
  {
    if step.Deliver? { OtherPeersEapol(n, step.peer, step.frame, step.rnd, step.sent, b); }
  }

  lemma {:induction false} EapolKeepsPeer(n: Node, src: Mac, f: Frame, rnd: Nonce, sent: bool)
    requires src in n.peers
    ensures var n' := OnEapol(n, src, f, rnd, sent).node;
            src in n'.peers && n'.peers[src].counter >= n.peers[src].counter
  {
    if !CanBegin(n, src) {
      return;
    }
    var c := n.peers[src];
    if !f.body.pairwise {
      return;
    }
    if c.idx <= 1 {
      return;
    }
  }

  /** Only a restart forgets a peer, and only that or peer discovery lowers its replay counter. */
  lemma {:induction false} PeerKept(n: Node, step: Step, b: Mac)
    requires b in n.peers && !step.Restart?
    ensures var n' := React(n, step).node;
            b in n'.peers && (n'.peers[b].counter >= n.peers[b].counter || Resets(step, step.at, b))
  {
    if step.NewGtk? || b != step.peer {
      OtherPeers(n, step, b);
    } else if step.Deliver? {
      EapolKeepsPeer(n, b, step.frame, step.rnd, step.sent);
    }
  }

  lemma {:induction false} EapolAdvances(n: Node, src: Mac, f: Frame, rnd: Nonce, sent: bool)
    requires src in n.peers
    ensures var r := OnEapol(n, src, f, rnd, sent);
            src in r.node.peers
            && var c, c' := n.peers[src], r.node.peers[src];
               && Advances(c.idx, c'.idx) && (c'.idx != c.idx ==> r.ok)
               && (c.idx != 0 && c.idx != 1 ==> c'.kck == c.kck)
  {
    if !CanBegin(n, src) {
      return;
    }
    var c := n.peers[src];
    if !f.body.pairwise {
      return;
    }
    if c.idx <= 1 {
      return;
    }
  }

  lemma {:induction false} DeliverAdvances(n: Node, step: Step)
    requires step.Deliver? && step.peer in n.peers
    ensures step.peer in React(n, step).node.peers
    ensures var c, c' := n.peers[step.peer], React(n, step).node.peers[step.peer];
            Advances(c.idx, c'.idx) && (c'.idx != c.idx ==> React(n, step).ok)
    ensures var c, c' := n.peers[step.peer], React(n, step).node.peers[step.peer];
            c.idx != 0 && c.idx != 1 ==> c'.kck == c.kck
  {
    EapolAdvances(n, step.peer, step.frame, step.rnd, step.sent);
  }

  /** Only a received frame moves past frame 1. */
  lemma {:induction false} InitiationIdx(n: Node, step: Step)
    requires !step.Deliver? && HasPeer(step) && step.peer in React(n, step).node.peers
    ensures var c' := React(n, step).node.peers[step.peer];
            c'.idx <= 1 || (step.peer in n.peers && c'.idx == n.peers[step.peer].idx
                && c'.kck == n.peers[step.peer].kck)
  {
  }
}
