/** Safety of the group keys over whole runs of a mesh. */
module GroupKey {
  import opened Eapol
  import opened Mesh
  import opened MeshProof
  import opened MeshSteps
  import opened Installs
  import opened Session
  import opened Reinstall

  // -- The group handshake ----------------------------------------------------------------------------

  /** A group frame installs a key exactly when it arrives before any other frame was sent to the peer
      and verifies under the key of that context. */
  lemma {:induction false} GroupFrameInstalls(n: Node, b: Mac, f: Frame, rnd: Nonce, sent: bool)
    requires !f.body.pairwise
    ensures (exists e :: e in OnEapol(n, b, f, rnd, sent).events && e.GtkInstalled?) <==>
            (CanBegin(n, b) && n.peers[b].idx == 0 && f.body.counter > n.peers[b].counter
             && VerifyMic(n.peers[b].kck, f) && CarriesGtk(n.peers[b].kek, f.body.data))
  {
    var r := OnEapol(n, b, f, rnd, sent);
    if CanBegin(n, b) && n.peers[b].idx == 0 && f.body.counter > n.peers[b].counter
       && VerifyMic(n.peers[b].kck, f) && CarriesGtk(n.peers[b].kek, f.body.data) {
      assert r.events[0].GtkInstalled?;
    }
  }

  /** In a state of a run, a group key is installed by a frame 3 only. */
  lemma {:induction false} GtkFromFrame3(s: State, step: Step, e: Event)
    requires Inv(s) && Enabled(s, step) && e in React(s.nodes[step.at], step).events && e.GtkInstalled?
    ensures step.Deliver? && CanBegin(s.nodes[step.at], step.peer) && IsFrame3(step.frame)
    ensures var c := s.nodes[step.at].peers[step.peer];
            c.idx == 2 && KeyOf(step.frame) == c.kck && CarriesGtk(c.kek, step.frame.body.data)
    ensures e == GtkInstalled(step.at, step.peer, step.frame.body.data.gtk, step.frame.body.data.keyId)
    ensures step.sent && forall e' :: e' in React(s.nodes[step.at], step).events && e'.GtkInstalled? ==> e' == e
  {
    var n := s.nodes[step.at];
    assert step.Deliver? && CanBegin(n, step.peer);
    assert CtxInv(s.origin, s.net, step.at, step.peer, n.peers[step.peer]);
    if !step.frame.body.pairwise && n.peers[step.peer].idx == 0 {
      GroupFrameRefused(s, step.at, step.peer, n.peers[step.peer], step.frame);
    }
  }

  /** In every run, the group handshake installs nothing: no frame of it is ever answered, and the new
      key of a GTK rekey reaches an agent only with the frame 3 of a later four-way handshake. */
  lemma {:induction false} GroupHandshakeNeverInstalls(states: seq<State>, steps: seq<Step>, i: nat)
    requires IsRun(states, steps) && i < |steps| && steps[i].Deliver? && !steps[i].frame.body.pairwise
    ensures Takes(states[i], steps[i], states[i + 1]) && states[i + 1].net == states[i].net
    ensures forall e :: e in React(states[i].nodes[steps[i].at], steps[i]).events ==> e.GroupDone?
  {
    var s, step := states[i], steps[i];
    RunKeepsInv(states, steps, i);
    assert Takes(s, step, states[i + 1]);
    var n := s.nodes[step.at];
    if CanBegin(n, step.peer) && n.peers[step.peer].idx == 0 {
      assert CtxInv(s.origin, s.net, step.at, step.peer, n.peers[step.peer]);
      GroupFrameRefused(s, step.at, step.peer, n.peers[step.peer], step.frame);
    }
  }

  // -- Genuine keys ---------------------------------------------------------------------------------

  /** The key was derived by a node that holds a GMK. */
  ghost predicate Genuine(nodes: map<Mac, Node>, g: Gtk) {
    g.Gtk? && g.owner in nodes && nodes[g.owner].hasGmk && 1 <= g.serial <= nodes[g.owner].derived
  }

  ghost predicate GtkInv(s: State) {
    && (forall a :: a in s.nodes && s.nodes[a].gtk != NoGtk ==> Genuine(s.nodes, s.nodes[a].gtk))
    && (forall p :: p in s.net && p.frame.body.data.Wrapped? ==>
          Genuine(s.nodes, p.frame.body.data.gtk) && p.frame.body.data.keyId <= 3)
    && (forall e :: e in s.log && e.GtkInstalled? ==> Genuine(s.nodes, e.gtk) && 1 <= e.keyId <= 3)
  }

  /** What a reaction may do to the node's own group key: forget it, derive the next, or adopt one. */
  predicate GtkMove(n: Node, n': Node, received: KeyData) {
    && n'.mac == n.mac && n'.hasGmk == n.hasGmk && n'.derived >= n.derived
    && (n'.gtk == NoGtk || n'.gtk == n.gtk
        || (n.hasGmk && n'.derived == n.derived + 1 && n'.gtk == Gtk(n.mac, n'.derived))
        || (received.Wrapped? && n'.gtk == received.gtk))
  }

  lemma {:induction false} EapolGtk(n: Node, src: Mac, f: Frame, rnd: Nonce, sent: bool)
    ensures GtkMove(n, OnEapol(n, src, f, rnd, sent).node, f.body.data)
  {
    if !CanBegin(n, src) {
      return;
    }
    var c := n.peers[src];
    if !f.body.pairwise {
      return;
    }
    if c.idx <= 1 {
      return;
    }
  }

  lemma {:induction false} ReactGtk(n: Node, step: Step)
    ensures GtkMove(n, React(n, step).node, if step.Deliver? then step.frame.body.data else NoData)
  {
    if step.Deliver? { EapolGtk(n, step.peer, step.frame, step.rnd, step.sent); }
  }

  lemma {:induction false} ReactSends(n: Node, step: Step)
    requires React(n, step).out.Some? && React(n, step).out.value.body.data.Wrapped?
    ensures var d := React(n, step).out.value.body.data;
            d.gtk == n.gtk && n.gtk != NoGtk && d.keyId <= 3 && React(n, step).node.gtk == n.gtk
  {
  }

  lemma {:induction false} GenuineGrows(nodes: map<Mac, Node>, a: Mac, n': Node, g: Gtk)
    requires a in nodes && n'.hasGmk == nodes[a].hasGmk && n'.derived >= nodes[a].derived && Genuine(nodes, g)
    ensures Genuine(nodes[a := n'], g)
  {
  }

  lemma {:induction false} GtkStep(s: State, step: Step, s': State)
    requires Inv(s) && Takes(s, step, s') && GtkInv(s)
    ensures GtkInv(s')
  {
    var n := s.nodes[step.at];
    var r := React(n, step);
    ReactGtk(n, step);
    assert s'.nodes == s.nodes[step.at := r.node];
    forall g | Genuine(s.nodes, g) ensures Genuine(s'.nodes, g) { GenuineGrows(s.nodes, step.at, r.node, g); }
    StepExtends(s, step, s');
    GtkStepNode(s, step, s');
    forall p | p in s'.net && p.frame.body.data.Wrapped?
      ensures Genuine(s'.nodes, p.frame.body.data.gtk) && p.frame.body.data.keyId <= 3
    {
      if p !in s.net {
        assert p.frame == r.out.value;
        ReactSends(n, step);
      }
    }
    forall e | e in s'.log && e.GtkInstalled? ensures Genuine(s'.nodes, e.gtk) && 1 <= e.keyId <= 3 {
      if e !in s.log {
        GtkFromFrame3(s, step, e);
        assert Packet(step.peer, step.at, step.frame) in s.net;
      }
    }
  }

  lemma {:induction false} GtkStepNode(s: State, step: Step, s': State)
    requires Inv(s) && Takes(s, step, s') && GtkInv(s)
    ensures forall a :: a in s'.nodes && s'.nodes[a].gtk != NoGtk ==> Genuine(s'.nodes, s'.nodes[a].gtk)
  {
    var n := s.nodes[step.at];
    var r := React(n, step);
    ReactGtk(n, step);
    assert s'.nodes == s.nodes[step.at := r.node];
    assert n.mac == step.at;
    forall a | a in s'.nodes && s'.nodes[a].gtk != NoGtk ensures Genuine(s'.nodes, s'.nodes[a].gtk) {
      if a != step.at || r.node.gtk == n.gtk {
        GenuineGrows(s.nodes, step.at, r.node, s'.nodes[a].gtk);
      } else if step.Deliver? && step.frame.body.data.Wrapped? && r.node.gtk == step.frame.body.data.gtk {
        assert Packet(step.peer, step.at, step.frame) in s.net;
        GenuineGrows(s.nodes, step.at, r.node, r.node.gtk);
      }
    }
  }

  /** In every run, every installed group key was derived by a node holding a GMK, and is installed under
      an id in 1..3. */
  lemma {:induction false} InstalledGtksAreGenuine(states: seq<State>, steps: seq<Step>, i: nat)
    requires IsRun(states, steps) && i < |states|
    ensures GtkInv(states[i])
  {
    if i > 0 {
      InstalledGtksAreGenuine(states, steps, i - 1);
      RunKeepsInv(states, steps, i - 1);
      GtkStep(states[i - 1], steps[i - 1], states[i]);
    }
  }

  // -- Ids ------------------------------------------------------------------------------------------

  predicate GtkIdOk(n: Node) { n.gtkId != 255 && (n.gtk != NoGtk ==> 1 <= n.gtkId <= 3) }

  lemma {:induction false} GtkIdStep(n: Node, step: Step)
    requires GtkIdOk(n) && step != Restart(step.at, 255)
    requires step.Deliver? && step.frame.body.data.Wrapped? ==> step.frame.body.data.keyId <= 3
    ensures GtkIdOk(React(n, step).node)
  {
  }

  lemma {:induction false} GtkIdStateStep(s: State, step: Step, s': State, a: Mac)
    requires Takes(s, step, s') && a in s.nodes && GtkIdOk(s.nodes[a]) && step != Restart(a, 255)
    requires forall p :: p in s.net && p.frame.body.data.Wrapped? ==> p.frame.body.data.keyId <= 3
    ensures a in s'.nodes && GtkIdOk(s'.nodes[a])
  {
    if step.Deliver? { assert Packet(step.peer, step.at, step.frame) in s.net; }
    if a == step.at { GtkIdStep(s.nodes[a], step); }
    assert s'.nodes == s.nodes[step.at := React(s.nodes[step.at], step).node];
  }

  lemma {:induction false} SentIdsInRange(states: seq<State>, steps: seq<Step>, i: nat)
    requires IsRun(states, steps) && i < |states|
    ensures forall p :: p in states[i].net && p.frame.body.data.Wrapped? ==> p.frame.body.data.keyId <= 3
  {
    InstalledGtksAreGenuine(states, steps, i);
  }

  /** In every run, a node whose layer never starts from the id 255 holds a group key only under an id in 1..3,
      however many keys it derives or receives. */
  lemma {:induction false} GtkIdStaysInRange(states: seq<State>, steps: seq<Step>, i: nat, a: Mac)
    requires IsRun(states, steps) && i < |states| && a in states[0].nodes && states[0].nodes[a].gtkId != 255
    requires forall k :: 0 <= k < i ==> steps[k] != Restart(a, 255)
    ensures a in states[i].nodes && GtkIdOk(states[i].nodes[a])
  {
    if i > 0 {
      GtkIdStaysInRange(states, steps, i - 1, a);
      SentIdsInRange(states, steps, i - 1);
      assert Takes(states[i - 1], steps[i - 1], states[i]);
      GtkIdStateStep(states[i - 1], steps[i - 1], states[i], a);
    }
  }

  predicate HeldIdOk(n: Node) { !n.hasGmk && n.gtk != NoGtk ==> 1 <= n.gtkId <= 3 }

  lemma {:induction false} HeldIdStep(n: Node, step: Step)
    requires HeldIdOk(n) && (step.Deliver? && step.frame.body.data.Wrapped? ==> step.frame.body.data.keyId <= 3)
    ensures HeldIdOk(React(n, step).node)
  {
    if !step.Deliver? || !CanBegin(n, step.peer) {
      return;
    }
    if !step.frame.body.pairwise {
      return;
    }
    if n.peers[step.peer].idx <= 1 {
      return;
    }
  }

  /** In every run, a node without a GMK holds a group key only under an id in 1..3. */
  lemma {:induction false} HeldGtkIdInRange(states: seq<State>, steps: seq<Step>, i: nat, a: Mac)
    requires IsRun(states, steps) && i < |states| && a in states[i].nodes
    ensures HeldIdOk(states[i].nodes[a])
  {
    if i > 0 {
      var s, step, s' := states[i - 1], steps[i - 1], states[i];
      assert Takes(s, step, s');
      assert s'.nodes == s.nodes[step.at := React(s.nodes[step.at], step).node];
      HeldGtkIdInRange(states, steps, i - 1, a);
      InstalledGtksAreGenuine(states, steps, i - 1);
      if a == step.at {
        if step.Deliver? { assert Packet(step.peer, step.at, step.frame) in s.net; }
        HeldIdStep(s.nodes[a], step);
      }
    }
  }

  // -- Order ------------------------------------------------------------------------------------------

  /** The send callback refuses the frame 4 that answers an accepted frame 3, which leaves the agent holding the group
      key it received. */
  predicate LosesFrame4(s: State, step: Step) {
    && Enabled(s, step) && step.Deliver? && !step.sent && CanBegin(s.nodes[step.at], step.peer)
    && var c, f := s.nodes[step.at].peers[step.peer], step.frame;
       && c.idx == 2 && f.body.pairwise && f.body.counter > c.counter && f.body.nonce == c.aNonce
       && VerifyMic(c.kck, f) && CarriesGtk(c.kek, f.body.data)
  }

  /** No step from the given one on loses a frame 4. */
  ghost predicate NoLoss(states: seq<State>, steps: seq<Step>, first: nat)
    requires |states| == |steps| + 1
  {
    forall k {:trigger LosesFrame4(states[k], steps[k])} :: first <= k < |steps| ==> !LosesFrame4(states[k], steps[k])
  }

  /** The controller is the only node that holds a group key to hand out, and it is its latest one. */
  ghost predicate OneSource(s: State, ctrl: Mac) {
    NodesHold(s.nodes, ctrl) && forall p :: p in s.net && p.frame.body.data.Wrapped? ==> p.src == ctrl
  }

  ghost predicate NotOlderAt(s: State, ctrl: Mac, a: Mac, f: Frame, e: Event) {
    Packet(ctrl, a, f) in s.net && IsFrame3(f) && AtIdx(s, a, ctrl, 2, KeyOf(f))
    && e in s.log && e.GtkInstalled? && e.node == a && e.gtk.Gtk? && f.body.data.gtk.Gtk? ==>
      e.gtk.serial <= f.body.data.gtk.serial
  }

  /** A frame 3 that an agent would accept carries no older key than those the agent has installed. */
  ghost predicate NotOlder(s: State, ctrl: Mac) { forall a, f, e :: NotOlderAt(s, ctrl, a, f, e) }

  /** The key of the later installation was derived no earlier. */
  predicate InOrder(d: Event, e: Event) {
    d.GtkInstalled? && e.GtkInstalled? && d.node == e.node ==>
      d.gtk.Gtk? && e.gtk.Gtk? && d.gtk.owner == e.gtk.owner && d.gtk.serial <= e.gtk.serial
  }

  /** Every group key a node installs was derived no earlier than those it installed before. */
  ghost predicate GtkOrder(log: seq<Event>) { forall i, j :: 0 <= i < j < |log| ==> InOrder(log[i], log[j]) }

  lemma {:induction false} GtkOrderAppends(log: seq<Event>, events: seq<Event>, log': seq<Event>)
    requires GtkOrder(log) && GtkOrder(events) && log' == log + events
    requires forall d, e :: d in log && e in events ==> InOrder(d, e)
    ensures GtkOrder(log')
  {
    forall i, j | 0 <= i < j < |log'| ensures InOrder(log'[i], log'[j]) {
      if j < |log| {
        assert InOrder(log[i], log[j]);
      } else if i < |log| {
        assert log[i] in log && events[j - |log|] in events;
      } else {
        assert InOrder(events[i - |log|], events[j - |log|]);
      }
    }
  }

  /** The group key of a node other than the controller after a step: none, unless the step loses a frame 4. */
  lemma {:induction false} AgentReact(s: State, step: Step)
    requires Inv(s) && Enabled(s, step) && !s.nodes[step.at].hasGmk && s.nodes[step.at].gtk == NoGtk
    ensures var n' := React(s.nodes[step.at], step).node;
            n'.gtk == if LosesFrame4(s, step) then step.frame.body.data.gtk else NoGtk
  {
    var n := s.nodes[step.at];
    if !step.Deliver? || !CanBegin(n, step.peer) {
      return;
    }
    var c := n.peers[step.peer];
    if !step.frame.body.pairwise {
      if c.idx == 0 {
        assert CtxInv(s.origin, s.net, step.at, step.peer, c);
        GroupFrameRefused(s, step.at, step.peer, c, step.frame);
      }
      return;
    }
    if c.idx <= 1 {
      return;
    }
  }

  /** The controller's own group key: frames that carry one come from itself, and never back to it. */
  lemma {:induction false} ControllerReact(n: Node, step: Step)
    requires !(step.Deliver? && step.frame.body.data.Wrapped?)
    requires n.gtk == NoGtk || n.gtk == Gtk(n.mac, n.derived)
    ensures var n' := React(n, step).node;
            n'.gtk == NoGtk || n'.gtk == Gtk(n.mac, n'.derived)
  {
    if !step.Deliver? || !CanBegin(n, step.peer) {
      return;
    }
    if !step.frame.body.pairwise {
      return;
    }
    if n.peers[step.peer].idx <= 1 {
      return;
    }
  }

  /** What a step makes of the group key of the node that takes it. */
  lemma {:induction false} StepGtk(s: State, step: Step, ctrl: Mac)
    requires Inv(s) && Enabled(s, step) && OneSource(s, ctrl) && GtkInv(s)
    ensures var n' := React(s.nodes[step.at], step).node;
            && n'.hasGmk == s.nodes[step.at].hasGmk
            && (step.at == ctrl ==> !LosesFrame4(s, step) && (n'.gtk == NoGtk || n'.gtk == Gtk(ctrl, n'.derived)))
            && (step.at != ctrl ==> (n'.gtk == NoGtk <==> !LosesFrame4(s, step)))
  {
    var n := s.nodes[step.at];
    assert n.mac == step.at;
    ReactGtk(n, step);
    if step.Deliver? { assert Packet(step.peer, step.at, step.frame) in s.net; }
    if step.at == ctrl {
      ControllerReact(n, step);
    } else {
      AgentReact(s, step);
    }
  }

  lemma {:induction false} SourcesKept(s: State, step: Step, s': State, ctrl: Mac)
    requires Inv(s) && Takes(s, step, s') && OneSource(s, ctrl)
    ensures forall p :: p in s'.net && p.frame.body.data.Wrapped? ==> p.src == ctrl
  {
    forall p | p in s'.net && p.frame.body.data.Wrapped? ensures p.src == ctrl {
      if p !in s.net { ReactSends(s.nodes[step.at], step); }
    }
  }

  /** One step keeps the controller the only source exactly when it does not lose a frame 4. */
  lemma {:induction false} OneSourceIff(s: State, step: Step, s': State, ctrl: Mac)
    requires Inv(s) && Takes(s, step, s') && OneSource(s, ctrl) && GtkInv(s)
    ensures OneSource(s', ctrl) <==> !LosesFrame4(s, step)
  {
    StepGtk(s, step, ctrl);
    SourcesKept(s, step, s', ctrl);
    NodesAfter(s, step, s');
    var n' := React(s.nodes[step.at], step).node;
    NodesOneSource(s.nodes, step.at, n', ctrl, s'.nodes);
  }

  lemma {:induction false} NodesAfter(s: State, step: Step, s': State)
    requires Takes(s, step, s')
    ensures s'.nodes == s.nodes[step.at := React(s.nodes[step.at], step).node]
  {
  }

  ghost predicate NodesHold(nodes: map<Mac, Node>, ctrl: Mac) {
    && ctrl in nodes
    && (forall a :: a in nodes && a != ctrl ==> !nodes[a].hasGmk && nodes[a].gtk == NoGtk)
    && (nodes[ctrl].gtk == NoGtk || nodes[ctrl].gtk == Gtk(ctrl, nodes[ctrl].derived))
  }

  lemma {:induction false} NodesOneSource(nodes: map<Mac, Node>, at: Mac, n': Node, ctrl: Mac, nodes': map<Mac, Node>)
    requires NodesHold(nodes, ctrl) && at in nodes && n'.hasGmk == nodes[at].hasGmk && nodes' == nodes[at := n']
    requires at == ctrl ==> n'.gtk == NoGtk || n'.gtk == Gtk(ctrl, n'.derived)
    ensures NodesHold(nodes', ctrl) <==> at == ctrl || n'.gtk == NoGtk
  {
    assert nodes'[at] == n' && forall a :: a in nodes && a != at ==> nodes'[a] == nodes[a];
  }

  lemma {:induction false} NotOlderStep(s: State, step: Step, s': State, ctrl: Mac, a: Mac, f: Frame, e: Event)
    requires Inv(s) && Takes(s, step, s') && OneSource(s, ctrl) && GtkInv(s) && NotOlder(s, ctrl)
    requires Packet(ctrl, a, f) in s'.net && IsFrame3(f) && AtIdx(s', a, ctrl, 2, KeyOf(f))
    requires e in s'.log && e.GtkInstalled? && e.node == a && e.gtk.Gtk? && f.body.data.gtk.Gtk?
    ensures e.gtk.serial <= f.body.data.gtk.serial
  {
    StepExtends(s, step, s');
    assert NotOlderAt(s, ctrl, a, f, e);
    if !AtIdx(s, a, ctrl, 2, KeyOf(f)) {
      NewlyArmed(s, step, s', ctrl, a, f);
    } else if e !in s.log {
      LeavesIdx2(s, step, s', ctrl, e);
    } else if Packet(ctrl, a, f) !in s.net {
      NewFrame3(s, step, s', ctrl, a, f, e);
    }
  }

  /** A new frame 3 carries the controller's latest key. */
  lemma {:induction false} NewFrame3(s: State, step: Step, s': State, ctrl: Mac, a: Mac, f: Frame, e: Event)
    requires Inv(s) && Takes(s, step, s') && OneSource(s, ctrl) && GtkInv(s)
    requires Packet(ctrl, a, f) in s'.net && Packet(ctrl, a, f) !in s.net && IsFrame3(f) && f.body.data.gtk.Gtk?
    requires e in s.log && e.GtkInstalled? && e.gtk.Gtk?
    ensures e.gtk.serial <= f.body.data.gtk.serial
  {
    var n := s.nodes[step.at];
    assert Packet(step.at, PeerOf(step), React(n, step).out.value) == Packet(ctrl, a, f);
    ReactSends(n, step);
    assert Genuine(s.nodes, e.gtk);
  }

  /** The installation of a group key ends the wait for frame 3 on the link to the controller. */
  lemma {:induction false} LeavesIdx2(s: State, step: Step, s': State, ctrl: Mac, e: Event)
    requires Inv(s) && Takes(s, step, s') && OneSource(s, ctrl)
    requires e in React(s.nodes[step.at], step).events && e.GtkInstalled?
    ensures step.Deliver? && step.at == e.node && step.peer == ctrl
    ensures forall k :: !AtIdx(s', e.node, ctrl, 2, k)
  {
    GtkFromFrame3(s, step, e);
    assert Packet(step.peer, step.at, step.frame) in s.net;
    DeliverAdvances(s.nodes[step.at], step);
    assert s'.nodes[step.at] == React(s.nodes[step.at], step).node;
  }

  /** A group key being installed is no older than those the node installed before. */
  lemma {:induction false} InstallsNotOlder(s: State, step: Step, ctrl: Mac, e: Event, d: Event)
    requires Inv(s) && Enabled(s, step) && OneSource(s, ctrl) && GtkInv(s) && NotOlder(s, ctrl)
    requires e in React(s.nodes[step.at], step).events && e.GtkInstalled?
    requires d in s.log && d.GtkInstalled? && d.node == e.node
    ensures d.gtk.Gtk? && e.gtk.Gtk? && d.gtk.owner == e.gtk.owner && d.gtk.serial <= e.gtk.serial
  {
    GtkFromFrame3(s, step, e);
    assert Packet(step.peer, step.at, step.frame) in s.net;
    assert Genuine(s.nodes, d.gtk) && Genuine(s.nodes, e.gtk);
    assert AtIdx(s, e.node, ctrl, 2, KeyOf(step.frame));
    assert NotOlderAt(s, ctrl, e.node, step.frame, d);
  }

  lemma {:induction false} GtkOrderStep(s: State, step: Step, s': State, ctrl: Mac)
    requires Inv(s) && Takes(s, step, s') && OneSource(s, ctrl) && GtkInv(s) && NotOlder(s, ctrl) && GtkOrder(s.log)
    ensures GtkOrder(s'.log)
  {
    StepExtends(s, step, s');
    var events := React(s.nodes[step.at], step).events;
    NewInOrder(s, step, ctrl, events);
    OneGtk(s.nodes[step.at], step, events);
    GtkOrderAppends(s.log, events, s'.log);
  }

  lemma {:induction false} NewInOrder(s: State, step: Step, ctrl: Mac, events: seq<Event>)
    requires Inv(s) && Enabled(s, step) && OneSource(s, ctrl) && GtkInv(s) && NotOlder(s, ctrl)
    requires events == React(s.nodes[step.at], step).events
    ensures forall d, e :: d in s.log && e in events ==> InOrder(d, e)
  {
    forall d, e | d in s.log && e in events ensures InOrder(d, e) {
      if d.GtkInstalled? && e.GtkInstalled? && d.node == e.node { InstallsNotOlder(s, step, ctrl, e, d); }
    }
  }

  /** No step installs two group keys. */
  lemma {:induction false} OneGtk(n: Node, step: Step, events: seq<Event>)
    requires events == React(n, step).events
    ensures GtkOrder(events)
  {
    if !step.Deliver? || !CanBegin(n, step.peer) {
      return;
    }
    if !step.frame.body.pairwise {
      return;
    }
    if n.peers[step.peer].idx <= 1 {
      return;
    }
  }

  /** Group key order.  In every run with one controller in which no agent fails to send a frame 4, every
      agent's group key is replaced only by one the controller derived no earlier. */
  lemma {:induction false} GtkNeverOlder(states: seq<State>, steps: seq<Step>, ctrl: Mac, i: nat)
    requires IsRun(states, steps) && i < |states| && ctrl in states[0].nodes
    requires forall a :: a in states[0].nodes && a != ctrl ==> !states[0].nodes[a].hasGmk
    requires NoLoss(states, steps, 0)
    ensures GtkOrder(states[i].log) && OneSource(states[i], ctrl) && NotOlder(states[i], ctrl)
  {
    if i > 0 {
      GtkNeverOlder(states, steps, ctrl, i - 1);
      RunKeepsInv(states, steps, i - 1);
      InstalledGtksAreGenuine(states, steps, i - 1);
      var s, step, s' := states[i - 1], steps[i - 1], states[i];
      assert Takes(s, step, s') && !LosesFrame4(s, step);
      OneSourceIff(s, step, s', ctrl);
      GtkOrderStep(s, step, s', ctrl);
      forall a, f, e ensures NotOlderAt(s', ctrl, a, f, e) {
        if Packet(ctrl, a, f) in s'.net && IsFrame3(f) && AtIdx(s', a, ctrl, 2, KeyOf(f))
           && e in s'.log && e.GtkInstalled? && e.node == a && e.gtk.Gtk? && f.body.data.gtk.Gtk? {
          NotOlderStep(s, step, s', ctrl, a, f, e);
        }
      }
    }
  }

  // -- Agents among themselves ------------------------------------------------------------------------

  lemma {:induction false} AuthenticatesStep(s: State, step: Step, ctrl: Mac, e: Event)
    requires Inv(s) && Enabled(s, step) && OneSource(s, ctrl)
    requires e in React(s.nodes[step.at], step).events && PtkEvent(e, Authenticator)
    ensures e.node == ctrl
  {
    AuthenticatorInstalls(s, step, e);
    var c := s.nodes[step.at].peers[step.peer];
    var q :| Packet(step.at, step.peer, q) in s.net && IsFrame3(q) && KeyOf(q) == c.kck && q.body.counter == c.counter;
  }

  /** In every such run only the controller completes handshakes as authenticator: an agent forgets the group key it
      installs, and without one it cannot build frame 3 for another agent. */
  lemma {:induction false} OnlyControllerAuthenticates(states: seq<State>, steps: seq<Step>, ctrl: Mac, i: nat)
    requires IsRun(states, steps) && i < |states| && ctrl in states[0].nodes
    requires forall a :: a in states[0].nodes && a != ctrl ==> !states[0].nodes[a].hasGmk
    requires NoLoss(states, steps, 0)
    ensures forall e :: e in states[i].log && PtkEvent(e, Authenticator) ==> e.node == ctrl
  {
    if i > 0 {
      OnlyControllerAuthenticates(states, steps, ctrl, i - 1);
      RunKeepsInv(states, steps, i - 1);
      GtkNeverOlder(states, steps, ctrl, i - 1);
      assert Takes(states[i - 1], steps[i - 1], states[i]);
      AuthenticatesLog(states[i - 1], steps[i - 1], states[i], ctrl);
    }
  }

  lemma {:induction false} AuthenticatesLog(s: State, step: Step, s': State, ctrl: Mac)
    requires Inv(s) && Takes(s, step, s') && OneSource(s, ctrl)
    requires forall e :: e in s.log && PtkEvent(e, Authenticator) ==> e.node == ctrl
    ensures forall e :: e in s'.log && PtkEvent(e, Authenticator) ==> e.node == ctrl
  {
    StepExtends(s, step, s');
    forall e | e in s'.log && PtkEvent(e, Authenticator) ensures e.node == ctrl {
      if e !in s.log { AuthenticatesStep(s, step, ctrl, e); }
    }
  }
}
