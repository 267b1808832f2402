/** ec_1905_encrypt_layer_t as the object it is: handlers that update the peer map and the group key in
    place.  Each is proved to do what the step functions of Eapol say, which is what the mesh is made of. */
module EncryptLayer {
  import opened Base
  import opened Eapol
  import opened Mesh

  /** The node and the frames it sent after a sequence of its steps. */
  function Reacts(n: Node, steps: seq<Step>): Node {
    if steps == [] then n else React(Reacts(n, steps[..|steps| - 1]), steps[|steps| - 1]).node
  }

  function Outs(n: Node, steps: seq<Step>): seq<Packet> {
    if steps == [] then [] else
    var step := steps[|steps| - 1];
    var r := React(Reacts(n, steps[..|steps| - 1]), step);
    Outs(n, steps[..|steps| - 1]) + if r.out.Some? then [Packet(n.mac, PeerOf(step), r.out.value)] else []
  }

  lemma {:induction false} ReactsSnoc(n: Node, steps: seq<Step>, step: Step)
    ensures Reacts(n, steps + [step]) == React(Reacts(n, steps), step).node
    ensures var r := React(Reacts(n, steps), step);
            Outs(n, steps + [step]) == Outs(n, steps)
                + if r.out.Some? then [Packet(n.mac, PeerOf(step), r.out.value)] else []
  {
    assert (steps + [step])[..|steps|] == steps;
  }

  /** The first k sends of the distribution loop. */
  function GroupSends(mac: Mac, order: seq<Mac>, sends: Mac -> bool, k: nat): seq<Step>
    requires k <= |order|
  {
    if k == 0 then [NewGtk(mac)]
        else GroupSends(mac, order, sends, k - 1) + [GroupSend(mac, order[k - 1], sends(order[k - 1]))]
  }

  function Rekeys(mac: Mac, order: seq<Mac>, sends: Mac -> bool, rnds: seq<Nonce>, k: nat): seq<Step>
    requires k <= |order| == |rnds|
  {
    if k == 0 then [] else
    Rekeys(mac, order, sends, rnds, k - 1) + [RekeyPtk(mac, order[k - 1], rnds[k - 1], sends(order[k - 1]))]
  }

  lemma {:induction false} RekeysSnoc(n: Node, order: seq<Mac>, sends: Mac -> bool, rnds: seq<Nonce>, k: nat)
    requires k < |order| == |rnds|
    ensures var r := Begin(Reacts(n, Rekeys(n.mac, order, sends, rnds, k)), order[k], true, rnds[k], sends(order[k]));
            && Reacts(n, Rekeys(n.mac, order, sends, rnds, k + 1)) == r.node
            && Outs(n, Rekeys(n.mac, order, sends, rnds, k + 1)) == Outs(n, Rekeys(n.mac, order, sends, rnds, k))
                 + if r.out.Some? then [Packet(n.mac, order[k], r.out.value)] else []
  {
    ReactsSnoc(n, Rekeys(n.mac, order, sends, rnds, k), RekeyPtk(n.mac, order[k], rnds[k], sends(order[k])));
  }

  lemma {:induction false} NewGtkFirst(n: Node, order: seq<Mac>, sends: Mac -> bool)
    ensures Reacts(n, GroupSends(n.mac, order, sends, 0)) == RekeyGtk(n)
      && Outs(n, GroupSends(n.mac, order, sends, 0)) == []
  {
    ReactsSnoc(n, [], NewGtk(n.mac));
    assert [] + [NewGtk(n.mac)] == [NewGtk(n.mac)];
  }

  /** The keys of the map, each once, in some order. */
  ghost predicate IsOrder(order: seq<Mac>, peers: map<Mac, Ctx>) {
    (forall i, j :: 0 <= i < j < |order| ==> order[i] != order[j]) && (forall p :: p in order <==> p in peers)
  }

  /** The peers after the first k sends, all accepted. */
  ghost predicate SentTo(n: Node, n': Node, order: seq<Mac>, k: nat)
    requires k <= |order| && IsOrder(order, n.peers)
  {
    && n' == RekeyGtk(n).(peers := n'.peers) && n'.peers.Keys == n.peers.Keys
    && forall i :: 0 <= i < |order| ==>
         order[i] in n.peers && var c := n.peers[order[i]];
         n'.peers[order[i]] == if i < k then c.(counter := c.counter + 1, idx := 1) else c
  }

  lemma {:induction false} SendReaches(n: Node, n': Node, order: seq<Mac>, k: nat)
    requires n.hasGmk && IsOrder(order, n.peers) && k < |order| && SentTo(n, n', order, k)
    requires n.peers[order[k]].kek != NoPtk
    ensures var r := SendGroup(n', order[k], true);
            SentTo(n, r.node, order, k + 1) && r.out.Some?
                && CarriesNewGtk(n, order[k], Packet(n.mac, order[k], r.out.value))
  {
  }

  ghost predicate Reached(n: Node, n': Node, frames: seq<Packet>, order: seq<Mac>, k: nat)
    requires k <= |order| && IsOrder(order, n.peers)
  {
    SentTo(n, n', order, k) && |frames| == k && forall i :: 0 <= i < k ==> CarriesNewGtk(n, order[i], frames[i])
  }

  ghost predicate CanReach(n: Node, order: seq<Mac>, sends: Mac -> bool) {
    n.hasGmk && IsOrder(order, n.peers) && forall p :: p in n.peers ==> n.peers[p].kek != NoPtk && sends(p)
  }

  /** The distribution loop alone: the node and the frames after k sends. */
  datatype Distribution = Distribution(node: Node, frames: seq<Packet>)

  function Distribute(n: Node, order: seq<Mac>, sends: Mac -> bool, k: nat): Distribution
    requires k <= |order|
  {
    if k == 0 then Distribution(RekeyGtk(n), []) else
    var d := Distribute(n, order, sends, k - 1);
    var r := SendGroup(d.node, order[k - 1], sends(order[k - 1]));
    Distribution(r.node, d.frames + if r.out.Some? then [Packet(n.mac, order[k - 1], r.out.value)] else [])
  }

  /** The distribution is a new-GTK step followed by group sends. */
  lemma {:induction false} DistributeIs(n: Node, order: seq<Mac>, sends: Mac -> bool, k: nat)
    requires k <= |order|
    ensures var steps := GroupSends(n.mac, order, sends, k);
            Distribute(n, order, sends, k) == Distribution(Reacts(n, steps), Outs(n, steps))
    decreases k
  {
    if k == 0 {
      NewGtkFirst(n, order, sends);
    } else {
      DistributeIs(n, order, sends, k - 1);
      var p, d := order[k - 1], Distribute(n, order, sends, k - 1);
      OneMoreSend(n, GroupSends(n.mac, order, sends, k - 1), p, sends(p), d, Distribute(n, order, sends, k));
    }
  }

  lemma {:induction false} OneMoreSend(n: Node, steps: seq<Step>, p: Mac, sent: bool, d: Distribution, d': Distribution)
    requires d == Distribution(Reacts(n, steps), Outs(n, steps))
    requires var r := SendGroup(d.node, p, sent);
             d' == Distribution(r.node, d.frames + if r.out.Some? then [Packet(n.mac, p, r.out.value)] else [])
    ensures var steps' := steps + [GroupSend(n.mac, p, sent)];
            d' == Distribution(Reacts(n, steps'), Outs(n, steps'))
  {
    ReactsSnoc(n, steps, GroupSend(n.mac, p, sent));
  }

  lemma {:induction false} ReachesOneMore(n: Node, d: Distribution, order: seq<Mac>, k: nat)
    requires n.hasGmk && IsOrder(order, n.peers) && k < |order| && Reached(n, d.node, d.frames, order, k)
    requires n.peers[order[k]].kek != NoPtk
    ensures var r := SendGroup(d.node, order[k], true);
            r.out.Some? && Reached(n, r.node, d.frames + [Packet(n.mac, order[k], r.out.value)], order, k + 1)
  {
    SendReaches(n, d.node, order, k);
  }

  lemma {:induction false} SendsReach(n: Node, order: seq<Mac>, sends: Mac -> bool, k: nat, d: Distribution)
    requires CanReach(n, order, sends) && k <= |order| && d == Distribute(n, order, sends, k)
    ensures Reached(n, d.node, d.frames, order, k)
    decreases k
  {
    if k == 0 {
      assert forall i :: 0 <= i < |order| ==> order[i] in order;
    } else {
      var before := Distribute(n, order, sends, k - 1);
      SendsReach(n, order, sends, k - 1, before);
      assert order[k - 1] in order && sends(order[k - 1]);
      ReachesOneMore(n, before, order, k - 1);
    }
  }

  predicate CarriesNewGtk(n: Node, p: Mac, packet: Packet) {
    && p in n.peers && packet.src == n.mac && packet.dst == p && VerifyMic(n.peers[p].kck, packet.frame)
    && packet.frame.body.counter == n.peers[p].counter + 1
    && packet.frame.body.data == Wrapped(n.peers[p].kek, NextGtkId(n.gtkId) % 4, Gtk(n.mac, n.derived + 1))
  }

  /** A GTK rekey whose sends all succeed sends each peer exactly one frame, which carries the new key under
      the peer's own keys; nothing else changes but the peers' counters and frame numbers. */
  lemma {:induction false} RekeyReachesEveryPeer(n: Node, order: seq<Mac>, sends: Mac -> bool)
    requires CanReach(n, order, sends)
    ensures var steps := GroupSends(n.mac, order, sends, |order|);
            Reached(n, Reacts(n, steps), Outs(n, steps), order, |order|)
    ensures |order| == |n.peers|
  {
    DistributeIs(n, order, sends, |order|);
    SendsReach(n, order, sends, |order|, Distribute(n, order, sends, |order|));
    OrderLength(order, n.peers.Keys);
  }

  lemma {:induction false} OrderLength(order: seq<Mac>, keys: set<Mac>)
    requires (forall i, j :: 0 <= i < j < |order| ==> order[i] != order[j]) && (forall p :: p in order <==> p in keys)
    ensures |order| == |keys|
  {
    if order == [] {
      assert keys == {};
    } else {
      var k := |order| - 1;
      assert order[k] in order;
      forall p ensures p in order[..k] <==> p in keys - {order[k]} {
        if p in order && p != order[k] { assert p in order[..k]; }
      }
      OrderLength(order[..k], keys - {order[k]});
    }
  }

  /** A restart leaves what the constructor of a layer makes, but for the history of derived keys. */
  lemma {:induction false} RestartedIsNew(n: Node, gtkId: byte)
    ensures Restarted(n, gtkId) == Node(n.mac, n.hasGmk, NoGtk, gtkId, 0, n.derived, map[])
  {
  }

  class Layer {
    const mac: Mac
    const hasGmk: bool
    var gtk: Gtk
    var gtkId: byte
    var rekeys: nat
    var derived: nat
    var peers: map<Mac, Ctx>

    ghost function View(): Node
      reads this
    {
      Node(mac, hasGmk, gtk, gtkId, rekeys, derived, peers)
    }

    /** The id counter starts from whatever byte the uninitialised member holds. */
    constructor (mac: Mac, hasGmk: bool, gtkId: byte)
      ensures View() == Node(mac, hasGmk, NoGtk, gtkId, 0, 0, map[])
    {
      this.mac, this.hasGmk, gtk, this.gtkId := mac, hasGmk, NoGtk, gtkId;
      rekeys, derived, peers := 0, 0, map[];
    }

    /** Writes a context back into the map.  The source updates it through a reference; here each handler
        works on a copy and writes it back before it returns. */
    method Store(src: Mac, c: Ctx)
      modifies this`peers
      ensures View() == WithCtx(old(View()), src, c)
    {
      peers := peers[src := c];
    }

    method ComputeGtk()
      modifies this`gtk, this`gtkId, this`derived
      ensures View() == DeriveGtk(old(View()))
      ensures derived == old(derived) + 1 && gtk == Gtk(mac, derived)
      ensures gtkId == if old(gtkId) == 255 then 0 else if old(gtkId) < 3 then old(gtkId) + 1 else 1
    {
      derived := derived + 1;
      gtk := Gtk(mac, derived);
      gtkId := (gtkId + 1) % 256;
      if gtkId > 3 { gtkId := 1; }
    }

    method HandleFrame1(src: Mac, f: Frame, rnd: Nonce, sent: bool) returns (out: Option<Frame>, ok: bool)
      requires src in peers
      modifies this`peers
      ensures Reaction(View(), out, [], ok) == OnFrame1(old(View()), src, old(peers[src]), f, rnd, sent)
      ensures ok <==> f.body.counter > old(peers[src]).counter && f.body.nonce != 0 && sent
      ensures ok ==> var body := Body(true, true, f.body.secure, f.body.counter, peers[src].sNonce, NoData);
                     out == Some(Frame(body, Tag(peers[src].kck, body)))
      ensures var was := old(peers[src]);
              var y := if was.sNonce == 0 then rnd else was.sNonce;
              var k := ComputePtk(was.pmk, src, mac, f.body.nonce, y);
              peers == old(peers)[src :=
                if f.body.counter <= was.counter then was
                else if f.body.nonce == 0 then was.(counter := f.body.counter)
                else Ctx(was.pmk, k, k, k, f.body.nonce, y, if sent then 2 else was.idx, f.body.counter, f.body.secure)]
    {
      var c := peers[src];
      SameCtx(View(), src);
      if f.body.counter <= c.counter { return None, false; }
      c := c.(counter := f.body.counter);
      if f.body.nonce != 0 {
        c := c.(aNonce := f.body.nonce, rekeying := f.body.secure);
        if c.sNonce == 0 { c := c.(sNonce := rnd); }
        c := c.(ptk := ComputePtk(c.pmk, mac, src, c.aNonce, c.sNonce));
        c := c.(kck := c.ptk, kek := c.ptk);
      }
      ok := f.body.nonce != 0 && sent;
      out := if ok then Some(Frame2(c)) else None;
      Store(src, if ok then c.(idx := 2) else c);
    }

    method HandleFrame2(src: Mac, f: Frame, sent: bool) returns (out: Option<Frame>, ok: bool)
      requires src in peers
      modifies this`peers
      ensures Reaction(View(), out, [], ok) == OnFrame2(old(View()), src, old(peers[src]), f, sent)
      ensures var k := ComputePtk(old(peers[src]).pmk, mac, src, old(peers[src]).aNonce, f.body.nonce);
              && (ok <==> f.body.counter == old(peers[src]).counter && f.body.nonce != 0 && f.body.mic
                          && f.tag == Tag(k, f.body) && old(peers[src]).aNonce != 0 && gtk != NoGtk && sent)
              && (ok ==> var x := peers[src].aNonce;
                         var body := Body(true, true, true, f.body.counter + 1, x, Wrapped(k, gtkId % 4, gtk));
                         out == Some(Frame(body, Tag(k, body))))
              && var was, verified := old(peers[src]), f.body.mic && f.tag == Tag(k, f.body);
                 peers == old(peers)[src :=
                   if f.body.counter != was.counter || f.body.nonce == 0 then was
                   else Ctx(was.pmk, k, k, k, was.aNonce, f.body.nonce, if ok then 3 else was.idx,
                            if verified then was.counter + 1 else was.counter, was.rekeying)]
    {
      var c := peers[src];
      SameCtx(View(), src);
      if f.body.counter != c.counter || f.body.nonce == 0 { return None, false; }
      c := c.(sNonce := f.body.nonce);
      c := c.(ptk := ComputePtk(c.pmk, src, mac, c.aNonce, c.sNonce));
      c := c.(kck := c.ptk, kek := c.ptk);
      if VerifyMic(c.kck, f) {
        c := c.(counter := c.counter + 1);
        ok := c.aNonce != 0 && gtk != NoGtk && sent;
      } else {
        ok := false;
      }
      out := if ok then Some(Frame3(c, gtkId, gtk)) else None;
      Store(src, if ok then c.(idx := 3) else c);
    }

    method HandleFrame3(src: Mac, f: Frame, sent: bool) returns (out: Option<Frame>, events: seq<Event>, ok: bool)
      requires src in peers
      modifies this`peers, this`gtk, this`gtkId
      ensures Reaction(View(), out, events, ok) == OnFrame3(old(View()), src, old(peers[src]), f, sent)
      ensures var c := old(peers[src]);
              && (ok ==> f.body.counter > c.counter && f.body.nonce == c.aNonce && f.tag == Tag(c.kck, f.body) && sent)
              && (ok ==> f.body.data == Wrapped(c.kek, gtkId, f.body.data.gtk) && gtkId != 0 && gtk == NoGtk)
              && (ok ==> events == [PtkInstalled(mac, src, c.ptk, Supplicant),
                                    GtkInstalled(mac, src, f.body.data.gtk, f.body.data.keyId)])
              && (ok ==> var body := Body(true, true, true, f.body.counter, 0, NoData);
                         && out == Some(Frame(body, Tag(c.kck, body)))
                         && peers == old(peers)[src := c.(idx := 4, ptk := NoPtk, counter := f.body.counter)])
              && (!ok ==> out == None && events == [])
              && (!ok && sent ==> View() == old(View()))
              && (!ok && View() != old(View()) ==>
                    && peers == old(peers)[src := c.(counter := f.body.counter)] && f.body.counter > c.counter
                    && f.body.data == Wrapped(c.kek, gtkId, gtk) && f.tag == Tag(c.kck, f.body))
    {
      var c := peers[src];
      SameCtx(View(), src);
      if f.body.counter <= c.counter || f.body.nonce != c.aNonce || !VerifyMic(c.kck, f) { return None, [], false; }
      if !CarriesGtk(c.kek, f.body.data) { return None, [], false; }
      gtk, gtkId := f.body.data.gtk, f.body.data.keyId;
      c := c.(counter := f.body.counter);
      if !sent {
        Store(src, c);
        return None, [], false;
      }
      out := Some(Frame4(c));
      events := [PtkInstalled(mac, src, c.ptk, Supplicant), GtkInstalled(mac, src, gtk, gtkId)];
      Store(src, c.(idx := 4, ptk := NoPtk));
      gtk, ok := NoGtk, true;
    }

    method HandleFrame4(src: Mac, f: Frame) returns (events: seq<Event>, ok: bool)
      requires src in peers
      modifies this`peers
      ensures Reaction(View(), None, events, ok) == OnFrame4(old(View()), src, old(peers[src]), f)
      ensures var c := old(peers[src]);
              && (ok <==> f.body.counter == c.counter && f.body.mic && f.tag == Tag(c.kck, f.body))
              && events == (if ok then [PtkInstalled(mac, src, c.ptk, Authenticator)] else [])
              && peers == old(peers)[src := if ok then c.(counter := c.counter + 1, ptk := NoPtk) else c]
    {
      var c := peers[src];
      SameCtx(View(), src);
      if f.body.counter != c.counter || !VerifyMic(c.kck, f) { return [], false; }
      events, ok := [PtkInstalled(mac, src, c.ptk, Authenticator)], true;
      Store(src, c.(counter := c.counter + 1, ptk := NoPtk));
    }

    method HandleGroupFrame1(src: Mac, f: Frame, sent: bool) returns (out: Option<Frame>, events: seq<Event>, ok: bool)
      requires src in peers
      modifies this`peers, this`gtk, this`gtkId
      ensures Reaction(View(), out, events, ok) == OnGroupFrame1(old(View()), src, old(peers[src]), f, sent)
      ensures var c := old(peers[src]);
              && (events != [] ==> f.body.counter > c.counter && f.tag == Tag(c.kck, f.body) && f.body.data.Wrapped?
                                   && f.body.data.kek == c.kek && gtkId == f.body.data.keyId != 0 && gtk == NoGtk
                                   && events[0] == GtkInstalled(mac, src, f.body.data.gtk, gtkId))
              && (ok <==> events != [] && sent)
              && (ok ==> var body := Body(true, true, true, f.body.counter, 0, NoData);
                         out == Some(Frame(body, Tag(c.kck, body))) && events[1..] == [GroupDone(mac, src)])
              && peers == old(peers)[src :=
                   if ok then c.(idx := 2, counter := f.body.counter + 1)
                   else if f.body.counter > c.counter then c.(counter := f.body.counter) else c]
    {
      var c := peers[src];
      SameCtx(View(), src);
      if f.body.counter <= c.counter { return None, [], false; }
      c := c.(counter := f.body.counter);
      if !VerifyMic(c.kck, f) || !CarriesGtk(c.kek, f.body.data) {
        Store(src, c);
        return None, [], false;
      }
      gtkId := f.body.data.keyId;
      events := [GtkInstalled(mac, src, f.body.data.gtk, gtkId)];
      gtk := NoGtk;
      if !sent {
        Store(src, c);
        return None, events, false;
      }
      out, events, ok := Some(GroupFrame2(c)), events + [GroupDone(mac, src)], true;
      Store(src, c.(idx := 2, counter := c.counter + 1));
    }

    method HandleGroupFrame2(src: Mac, f: Frame) returns (events: seq<Event>, ok: bool)
      requires src in peers
      ensures Reaction(View(), None, events, ok) == OnGroupFrame2(View(), src, peers[src], f)
      ensures ok <==> f.body.counter == peers[src].counter && f.body.mic && f.tag == Tag(peers[src].kck, f.body)
      ensures events == if ok then [GroupDone(mac, src)] else []
    {
      SameCtx(View(), src);
      ok := f.body.counter == peers[src].counter && VerifyMic(peers[src].kck, f);
      events := if ok then [GroupDone(mac, src)] else [];
    }

    /** handle_eapol_frame */
    method HandleEapol(src: Mac, f: Frame, rnd: Nonce, sent: bool)
      returns (out: Option<Frame>, events: seq<Event>, ok: bool)
      modifies this`peers, this`gtk, this`gtkId
      ensures Reaction(View(), out, events, ok) == OnEapol(old(View()), src, f, rnd, sent)
      ensures src !in old(peers) || old(peers)[src].pmk == NoPmk ==> View() == old(View()) && out == None && !ok
    {
      out, events, ok := None, [], false;
      if src !in peers || peers[src].pmk == NoPmk { return; }
      SameCtx(View(), src);
      var idx := peers[src].idx;
      if !f.body.pairwise {
        if idx == 0 {
          out, events, ok := HandleGroupFrame1(src, f, sent);
        } else if idx == 1 {
          events, ok := HandleGroupFrame2(src, f);
        }
      } else if idx == 0 {
        out, ok := HandleFrame1(src, f, rnd, sent);
      } else if idx == 1 {
        out, ok := HandleFrame2(src, f, sent);
      } else if idx == 2 {
        out, events, ok := HandleFrame3(src, f, sent);
      } else if idx == 3 {
        events, ok := HandleFrame4(src, f);
      }
    }

    /** begin_1905_4way_handshake */
    method BeginHandshake(peer: Mac, rekey: bool, rnd: Nonce, sent: bool) returns (out: Option<Frame>, ok: bool)
      modifies this`peers
      ensures Reaction(View(), out, [], ok) == Begin(old(View()), peer, rekey, rnd, sent)
      ensures peers.Keys == old(peers).Keys && (forall q :: q in peers ==> peers[q].pmk == old(peers)[q].pmk)
      ensures ok <==> out.Some?
      ensures ok <==> peer in old(peers) && old(peers)[peer].pmk != NoPmk && sent
      ensures ok ==> var c := old(peers)[peer];
                     && out == Some(Frame(Body(true, false, rekey, c.counter + 1, rnd, PmkidKde(c.pmk)), NoTag))
                     && peers[peer] == c.(rekeying := rekey, counter := c.counter + 1, aNonce := rnd, idx := 1)
    {
      if peer !in peers || peers[peer].pmk == NoPmk { return None, false; }
      var c := peers[peer];
      c := c.(rekeying := rekey, counter := c.counter + 1, aNonce := rnd);
      Store(peer, if sent then c.(idx := 1) else c);
      return if sent then Some(Frame1(c)) else None, sent;
    }

    /** handle_peer_disc_req_frame, from the point where the connector has been validated */
    method HandleDiscoveryRequest(peer: Mac, rnd: Nonce, responded: bool, sent: bool)
        returns (out: Option<Frame>, ok: bool)
      modifies this`peers, this`gtk, this`gtkId, this`derived
      ensures Reaction(View(), out, [], ok) == OnDiscoveryRequest(old(View()), peer, rnd, responded, sent)
      ensures ok <==> responded && sent
      ensures gtk == if hasGmk && old(gtk) == NoGtk then Gtk(mac, old(derived) + 1) else old(gtk)
      ensures var c := Ctx(PairPmk(mac, peer), NoPtk, NoPtk, NoPtk, 0, 0, 0, 0, false);
              && peers == old(peers)[peer := if !responded then c
                                             else c.(counter := 1, aNonce := rnd, idx := if sent then 1 else 0)]
              && (ok ==> out == Some(Frame(Body(true, false, false, 1, rnd, PmkidKde(PairPmk(mac, peer))), NoTag)))
    {
      out, ok := None, false;
      if hasGmk && gtk == NoGtk {
        ComputeGtk();
      }
      Store(peer, NewCtx(mac, peer));
      if responded {
        out, ok := BeginHandshake(peer, false, rnd, sent);
      }
    }

    /** handle_peer_disc_resp_frame, from the point where the connector has been validated */
    method HandleDiscoveryResponse(peer: Mac)
      modifies this`peers
      ensures View() == OnDiscoveryResponse(old(View()), peer)
      ensures peers == old(peers)[peer := Ctx(PairPmk(mac, peer), NoPtk, NoPtk, NoPtk, 0, 0, 0, 0, false)]
    {
      Store(peer, NewCtx(mac, peer));
    }

    /** rekey_1905_layer_ptk for one peer.  A known peer is refused and an unknown one is added with an
        empty PMK, so no call ever starts a handshake. */
    method RekeyPtkOf(peer: Mac, rnd: Nonce, sent: bool) returns (out: Option<Frame>, ok: bool)
      modifies this`peers
      ensures Reaction(View(), out, [], ok) == RekeyPtkOne(old(View()), peer, rnd, sent)
      ensures !ok && out == None
      ensures peers == old(peers) + if peer in old(peers) then map[] else map[peer := ZERO_CTX]
    {
      out, ok := None, false;
      if peer in peers { return; }
      Store(peer, ZERO_CTX);
      if peers[peer].pmk != NoPmk {
        assert false;
      }
    }

    /** rekey_1905_layer_ptk for all peers, in the order of the map: it stops at the first peer without a
        PMK, before touching it, or at the first frame 1 that could not be sent.  `tried` counts the
        handshakes begun, the failed one included. */
    method RekeyPtkAll(order: seq<Mac>, rnds: seq<Nonce>, sends: Mac -> bool)
        returns (frames: seq<Packet>, tried: nat, ok: bool)
      requires |order| == |rnds| && IsOrder(order, peers)
      modifies this`peers
      ensures tried <= |order| && |frames| <= |order| && (ok <==> |frames| == |order|)
      ensures !ok ==>
                || (tried == |frames| && old(peers)[order[|frames|]].pmk == NoPmk)
                || (tried == |frames| + 1 && !sends(order[|frames|]))
      ensures var steps := Rekeys(mac, order, sends, rnds, tried);
              View() == Reacts(old(View()), steps) && frames == Outs(old(View()), steps)
    {
      frames, tried, ok := [], 0, false;
      while tried < |order|
        invariant tried <= |order| && |frames| == tried
        invariant peers.Keys == old(peers).Keys && forall q :: q in peers ==> peers[q].pmk == old(peers)[q].pmk
        invariant View() == Reacts(old(View()), Rekeys(mac, order, sends, rnds, tried))
        invariant frames == Outs(old(View()), Rekeys(mac, order, sends, rnds, tried))
      {
        var p := order[tried];
        assert p in order;
        if peers[p].pmk == NoPmk {
          return;
        }
        RekeysSnoc(old(View()), order, sends, rnds, tried);
        var out, begun := BeginHandshake(p, true, rnds[tried], sends(p));
        tried := tried + 1;
        if !begun {
          return;
        }
        frames := frames + [Packet(mac, p, out.value)];
      }
      ok := true;
    }

    /** One pass of the loop of rekey_1905_layer_gtk. */
    method SendGroupTo(peer: Mac, sent: bool) returns (out: Option<Frame>, ok: bool)
      requires peer in peers
      modifies this`peers
      ensures Reaction(View(), out, [], ok) == SendGroup(old(View()), peer, sent)
      ensures ok <==> gtk != NoGtk && old(peers[peer]).kek != NoPtk && sent
      ensures var c := old(peers[peer]);
              && peers[peer] == c.(counter := c.counter + 1, idx := if ok then 1 else c.idx)
              && (ok ==> var body := Body(false, true, true, c.counter + 1, 0, Wrapped(c.kek, gtkId % 4, gtk));
                         out == Some(Frame(body, Tag(c.kck, body))))
      ensures peers.Keys == old(peers).Keys && (ok <==> out.Some?)
    {
      var c := peers[peer];
      c := c.(counter := c.counter + 1);
      ok := gtk != NoGtk && c.kek != NoPtk && sent;
      out := if ok then Some(GroupFrame1(c, gtkId, gtk)) else None;
      Store(peer, if ok then c.(idx := 1) else c);
    }

    /** The distribution loop of rekey_1905_layer_gtk, for a key derived from the node `n`. */
    method SendGroupToAll(ghost n: Node, order: seq<Mac>, sends: Mac -> bool) returns (frames: seq<Packet>, done: nat)
      requires n.mac == mac && View() == RekeyGtk(n) && forall p :: p in order ==> p in peers
      modifies this`peers
      ensures done <= |order| && |frames| == done
      ensures Distribution(View(), frames) == Distribute(n, order, sends, if done < |order| then done + 1 else done)
    {
      frames, done := [], 0;
      while done < |order|
        invariant done <= |order| && |frames| == done
        invariant peers.Keys == old(peers).Keys
        invariant Distribution(View(), frames) == Distribute(n, order, sends, done)
      {
        var p := order[done];
        assert p in order;
        var out, begun := SendGroupTo(p, sends(p));
        if !begun {
          return;
        }
        frames := frames + [Packet(mac, p, out.value)];
        done := done + 1;
      }
    }

    /** rekey_1905_layer_gtk: derive the next key, then send it to the peers in the order of the map, up to
        and including the first failure; DistributeIs says which steps of the mesh that is.  It reports failure even
        when every send succeeded. */
    method RekeyGtkAll(order: seq<Mac>, sends: Mac -> bool) returns (frames: seq<Packet>, done: nat, ok: bool)
      requires IsOrder(order, peers)
      modifies this`gtk, this`gtkId, this`derived, this`rekeys, this`peers
      ensures !ok && done <= |order| && |frames| == done
      ensures !hasGmk ==> View() == old(View()) && done == 0
      ensures hasGmk ==> rekeys == old(rekeys) + 1 && derived == old(derived) + 1 && gtk == Gtk(mac, derived)
      ensures hasGmk ==> gtkId == if old(gtkId) == 255 then 0 else if old(gtkId) < 3 then old(gtkId) + 1 else 1
      ensures hasGmk ==>
                Distribution(View(), frames)
                == Distribute(old(View()), order, sends, if done < |order| then done + 1 else done)
    {
      if !hasGmk {
        return [], 0, false;
      }
      ComputeGtk();
      rekeys := rekeys + 1;
      frames, done := SendGroupToAll(old(View()), order, sends);
      ok := false;
    }
  }
}
