/** The 1905-layer key handshakes of ec_1905_encrypt_layer_t, one node at a time.

    Keys and tags are symbolic: the KDF, the MIC and the key wrap are free constructors, so two
    terms are equal only when they were built from equal inputs.  A MAC address and a nonce are
    the natural numbers whose big-endian bytes the source compares with memcmp; the all-zero
    nonce, PMK, PTK and GTK of the source are `0`, `NoPmk`, `NoPtk` and `NoGtk`. */
module Eapol {
  import opened Base

  type Mac = nat
  type Nonce = nat

  datatype Pmk = NoPmk | Pmk(lo: Mac, hi: Mac)

  datatype Ptk = NoPtk | Ptk(pmk: Pmk, macLo: Mac, macHi: Mac, nonceLo: Nonce, nonceHi: Nonce)

  /** The `serial`-th group key derived by the node `owner` from its GMK and a new GNonce. */
  datatype Gtk = NoGtk | Gtk(owner: Mac, serial: nat)

  datatype KeyData =
    | NoData
    | PmkidKde(pmk: Pmk)
    | Wrapped(kek: Ptk, keyId: byte, gtk: Gtk)

  /** The parts of an EAPOL-Key frame that some handler reads.  `pairwise` is the key type bit. */
  datatype Body = Body(pairwise: bool, mic: bool, secure: bool, counter: nat, nonce: Nonce, data: KeyData)

  datatype Tag = NoTag | Tag(key: Ptk, body: Body)

  datatype Frame = Frame(body: Body, tag: Tag)

  /** ec_1905_key_ctx */
  datatype Ctx = Ctx(
    pmk: Pmk,
    ptk: Ptk, kck: Ptk, kek: Ptk,
    aNonce: Nonce, sNonce: Nonce,
    idx: nat,
    counter: nat,
    rekeying: bool)

  datatype Role = Authenticator | Supplicant

  /** What set_key() is asked to install, and the completion callback of a group handshake. */
  datatype Event =
    | PtkInstalled(node: Mac, peer: Mac, ptk: Ptk, role: Role)
    | GtkInstalled(node: Mac, peer: Mac, gtk: Gtk, keyId: byte)
    | GroupDone(node: Mac, peer: Mac)

  /** One ec_1905_encrypt_layer_t.  `derived` counts the GTKs this node has derived so far. */
  datatype Node = Node(
    mac: Mac,
    hasGmk: bool,
    gtk: Gtk,
    gtkId: byte,
    rekeys: nat,
    derived: nat,
    peers: map<Mac, Ctx>)

  /** The node after a call, the frame handed to the send callback (if the callback accepted it),
      the keys installed, and the value returned to the caller. */
  datatype Reaction = Reaction(node: Node, out: Option<Frame>, events: seq<Event>, ok: bool)

  const ZERO_CTX := Ctx(NoPmk, NoPtk, NoPtk, NoPtk, 0, 0, 0, 0, false)

  // -- Key derivation ---------------------------------------------------------------------------

  /** compute_pmk_pmkid for the ordered pair (local, remote): the shared secret depends on the
      unordered pair only, see KeyAgreement.PeersDeriveSamePmk. */
  function PairPmk(local: Mac, remote: Mac): Pmk { Pmk(Min(local, remote), Max(local, remote)) }

  /** compute_ptk */
  function ComputePtk(pmk: Pmk, aa: Mac, spa: Mac, aNonce: Nonce, sNonce: Nonce): Ptk {
    Ptk(pmk, Min(aa, spa), Max(aa, spa), Min(aNonce, sNonce), Max(aNonce, sNonce))
  }

  /** The handlers of frames 1 and 2 pass the two addresses in opposite orders, and may hold the
      two nonces in opposite roles: the derived key depends on the two pairs without their order,
      and on nothing less. */
  lemma {:induction false} PtkOfPairs(pmk: Pmk, a: Mac, b: Mac, x: Nonce, y: Nonce, pmk': Pmk, a': Mac, b': Mac,
      x': Nonce, y': Nonce)
    ensures ComputePtk(pmk, a, b, x, y) == ComputePtk(pmk', a', b', x', y') <==>
            pmk == pmk' && multiset{a, b} == multiset{a', b'} && multiset{x, y} == multiset{x', y'}
    ensures PairPmk(a, b) == PairPmk(a', b') <==> multiset{a, b} == multiset{a', b'}
  {
    SamePair(a, b, a', b');
    SamePair(x, y, x', y');
  }

  lemma {:induction false} SamePair(a: nat, b: nat, c: nat, d: nat)
    ensures multiset{a, b} == multiset{c, d} <==> Min(a, b) == Min(c, d) && Max(a, b) == Max(c, d)
  {
    var m, n := multiset{a, b}, multiset{c, d};
    if m == n {
      assert a in n && b in n && c in m && d in m;
      if a == b { assert m[a] == 2; }
      if c == d { assert n[c] == 2; }
    }
  }

  /** compute_gtk: the id is a byte that is incremented and then wrapped into 1..3. */
  function NextGtkId(id: byte): byte {
    var next := (id + 1) % 256;
    if next > 3 then 1 else next
  }

  function GtkIdAfter(id: byte, derivations: nat): byte {
    if derivations == 0 then id else NextGtkId(GtkIdAfter(id, derivations - 1))
  }

  /** The ids of derived GTKs go round in 1, 2, 3.  Each is in 1..3 (so it survives the mask with 0x3 of the KDE) if and
      only if the byte the counter starts from, which the constructor leaves unset, is not 255. */
  lemma {:induction false} GtkIdRange(id: byte)
    ensures (forall n: nat :: 1 <= n ==> 1 <= GtkIdAfter(id, n) <= 3) <==> id != 255
    ensures forall n: nat :: 2 <= n ==> 1 <= GtkIdAfter(id, n) <= 3
    ensures forall n: nat :: 1 <= n ==> GtkIdAfter(id, n) % 4 == GtkIdAfter(id, n)
    ensures GtkIdAfter(id, 1) == (if id == 255 then 0 else if id < 3 then id + 1 else 1)
    ensures forall n: nat :: 1 <= n ==> GtkIdAfter(id, n + 1) == GtkIdAfter(id, n) % 3 + 1
  {
    forall n: nat | 1 <= n
      ensures GtkIdAfter(id, n) <= 3
      ensures 1 <= GtkIdAfter(id, n) || (n == 1 && id == 255)
      ensures GtkIdAfter(id, n + 1) == GtkIdAfter(id, n) % 3 + 1
    {
      GtkIdAt(id, n);
    }
    assert GtkIdAfter(id, 0) == id;
    assert GtkIdAfter(id, 1) == NextGtkId(id);
  }

  lemma {:induction false} GtkIdAt(id: byte, n: nat)
    requires 1 <= n
    ensures GtkIdAfter(id, n) <= 3
    ensures 1 <= GtkIdAfter(id, n) || (n == 1 && id == 255)
  {
    if n == 1 {
      assert GtkIdAfter(id, 0) == id;
    } else {
      GtkIdAt(id, n - 1);
    }
  }

  // -- Frames -----------------------------------------------------------------------------------

  /** calculate_mic covers the frame with its MIC field zeroed. */
  function Signed(kck: Ptk, body: Body): Frame { Frame(body, Tag(kck, body)) }

  /** verify_mic: no MIC is computed for a frame without the MIC bit. */
  predicate VerifyMic(kck: Ptk, f: Frame) {
    f.body.mic && f.tag == Tag(kck, f.body)
  }

  function Frame1(c: Ctx): Frame {
    Frame(Body(true, false, c.rekeying, c.counter, c.aNonce, PmkidKde(c.pmk)), NoTag)
  }

  function Frame2(c: Ctx): Frame {
    Signed(c.kck, Body(true, true, c.rekeying, c.counter, c.sNonce, NoData))
  }

  function Frame3(c: Ctx, gtkId: byte, gtk: Gtk): Frame {
    Signed(c.kck, Body(true, true, true, c.counter, c.aNonce, Wrapped(c.kek, gtkId % 4, gtk)))
  }

  function Frame4(c: Ctx): Frame {
    Signed(c.kck, Body(true, true, true, c.counter, 0, NoData))
  }

  function GroupFrame1(c: Ctx, gtkId: byte, gtk: Gtk): Frame {
    Signed(c.kck, Body(false, true, true, c.counter, 0, Wrapped(c.kek, gtkId % 4, gtk)))
  }

  /** The source sets the key type bit of the group handshake's second frame to "pairwise". */
  function GroupFrame2(c: Ctx): Frame {
    Signed(c.kck, Body(true, true, true, c.counter, 0, NoData))
  }

  /** decrypt_key_data followed by the checks on the 1905 GTK KDE. */
  predicate CarriesGtk(kek: Ptk, data: KeyData) {
    data.Wrapped? && kek != NoPtk && data.kek == kek && data.keyId != 0
  }

  // -- Frame handlers ---------------------------------------------------------------------------

  function WithCtx(n: Node, peer: Mac, c: Ctx): Node { n.(peers := n.peers[peer := c]) }

  /** Writing a context back unchanged changes nothing. */
  lemma {:induction false} SameCtx(n: Node, peer: Mac)
    requires peer in n.peers
    ensures WithCtx(n, peer, n.peers[peer]) == n
  {
    assert n.peers[peer := n.peers[peer]] == n.peers;
  }

  function Drop(n: Node, peer: Mac, c: Ctx): Reaction {
    Reaction(WithCtx(n, peer, c), None, [], false)
  }

  function Derive(c: Ctx, aa: Mac, spa: Mac): Ctx {
    var k := ComputePtk(c.pmk, aa, spa, c.aNonce, c.sNonce);
    c.(ptk := k, kck := k, kek := k)
  }

  function OnFrame1(n: Node, src: Mac, c: Ctx, f: Frame, rnd: Nonce, sent: bool): Reaction {
    if f.body.counter <= c.counter then Drop(n, src, c) else
    var c1 := c.(counter := f.body.counter);
    if f.body.nonce == 0 then Drop(n, src, c1) else
    var c2 := c1.(aNonce := f.body.nonce, rekeying := f.body.secure,
                  sNonce := if c.sNonce == 0 then rnd else c.sNonce);
    var c3 := Derive(c2, n.mac, src);
    if !sent then Drop(n, src, c3) else
    Reaction(WithCtx(n, src, c3.(idx := 2)), Some(Frame2(c3)), [], true)
  }

  function OnFrame2(n: Node, src: Mac, c: Ctx, f: Frame, sent: bool): Reaction {
    if f.body.counter != c.counter || f.body.nonce == 0 then Drop(n, src, c) else
    var c1 := Derive(c.(sNonce := f.body.nonce), src, n.mac);
    if !VerifyMic(c1.kck, f) then Drop(n, src, c1) else
    var c2 := c1.(counter := c1.counter + 1);
    if c2.aNonce == 0 || n.gtk == NoGtk || !sent then Drop(n, src, c2) else
    Reaction(WithCtx(n, src, c2.(idx := 3)), Some(Frame3(c2, n.gtkId, n.gtk)), [], true)
  }

  function OnFrame3(n: Node, src: Mac, c: Ctx, f: Frame, sent: bool): Reaction {
    if f.body.counter <= c.counter || f.body.nonce != c.aNonce || !VerifyMic(c.kck, f)
       || !CarriesGtk(c.kek, f.body.data) then Drop(n, src, c) else
    var gtk, keyId := f.body.data.gtk, f.body.data.keyId;
    var c1 := c.(counter := f.body.counter);
    if !sent then Drop(n.(gtk := gtk, gtkId := keyId), src, c1) else
    Reaction(WithCtx(n.(gtk := NoGtk, gtkId := keyId), src, c1.(idx := 4, ptk := NoPtk)),
             Some(Frame4(c1)),
             [PtkInstalled(n.mac, src, c.ptk, Supplicant), GtkInstalled(n.mac, src, gtk, keyId)],
             true)
  }

  function OnFrame4(n: Node, src: Mac, c: Ctx, f: Frame): Reaction {
    if f.body.counter != c.counter || !VerifyMic(c.kck, f) then Drop(n, src, c) else
    Reaction(WithCtx(n, src, c.(counter := c.counter + 1, ptk := NoPtk)), None,
             [PtkInstalled(n.mac, src, c.ptk, Authenticator)], true)
  }

  function OnGroupFrame1(n: Node, src: Mac, c: Ctx, f: Frame, sent: bool): Reaction {
    if f.body.counter <= c.counter then Drop(n, src, c) else
    var c1 := c.(counter := f.body.counter);
    if !VerifyMic(c1.kck, f) || !CarriesGtk(c1.kek, f.body.data) then Drop(n, src, c1) else
    var gtk, keyId := f.body.data.gtk, f.body.data.keyId;
    var n1 := n.(gtk := NoGtk, gtkId := keyId);
    var installed := [GtkInstalled(n.mac, src, gtk, keyId)];
    if !sent then Reaction(WithCtx(n1, src, c1), None, installed, false) else
    Reaction(WithCtx(n1, src, c1.(idx := 2, counter := c1.counter + 1)), Some(GroupFrame2(c1)),
             installed + [GroupDone(n.mac, src)], true)
  }

  function OnGroupFrame2(n: Node, src: Mac, c: Ctx, f: Frame): Reaction {
    if f.body.counter != c.counter || !VerifyMic(c.kck, f) then Drop(n, src, c) else
    Reaction(n, None, [GroupDone(n.mac, src)], true)
  }

  /** handle_eapol_frame: the frame is interpreted by the key type bit and the number of the frame
      last sent to this peer, and by nothing else. */
  function OnEapol(n: Node, src: Mac, f: Frame, rnd: Nonce, sent: bool): Reaction {
    if src !in n.peers || n.peers[src].pmk == NoPmk then Reaction(n, None, [], false) else
    var c := n.peers[src];
    if !f.body.pairwise then
      if c.idx == 0 then OnGroupFrame1(n, src, c, f, sent)
      else if c.idx == 1 then OnGroupFrame2(n, src, c, f)
      else Drop(n, src, c)
    else
      if c.idx == 0 then OnFrame1(n, src, c, f, rnd, sent)
      else if c.idx == 1 then OnFrame2(n, src, c, f, sent)
      else if c.idx == 2 then OnFrame3(n, src, c, f, sent)
      else if c.idx == 3 then OnFrame4(n, src, c, f)
      else Drop(n, src, c)
  }

  // -- Handshake initiation ---------------------------------------------------------------------

  predicate CanBegin(n: Node, peer: Mac) { peer in n.peers && n.peers[peer].pmk != NoPmk }

  /** begin_1905_4way_handshake */
  function Begin(n: Node, peer: Mac, rekey: bool, rnd: Nonce, sent: bool): Reaction {
    if !CanBegin(n, peer) then Reaction(n, None, [], false) else
    var c := n.peers[peer];
    var c1 := c.(rekeying := rekey, counter := c.counter + 1, aNonce := rnd);
    if !sent then Drop(n, peer, c1) else
    Reaction(WithCtx(n, peer, c1.(idx := 1)), Some(Frame1(c1)), [], true)
  }

  /** The context that both peer discovery handlers store: all zero but for the PMK. */
  function NewCtx(local: Mac, remote: Mac): Ctx { ZERO_CTX.(pmk := PairPmk(local, remote)) }

  /** handle_peer_disc_resp_frame, once the connector has been validated. */
  function OnDiscoveryResponse(n: Node, peer: Mac): Node { WithCtx(n, peer, NewCtx(n.mac, peer)) }

  /** compute_gtk */
  function DeriveGtk(n: Node): Node {
    n.(gtk := Gtk(n.mac, n.derived + 1), derived := n.derived + 1, gtkId := NextGtkId(n.gtkId))
  }

  /** handle_peer_disc_req_frame, once the connector has been validated: the GTK is derived on
      first use, the context is replaced, and if the response could be sent frame 1 follows. */
  function OnDiscoveryRequest(n: Node, peer: Mac, rnd: Nonce, responded: bool, sent: bool): Reaction {
    var n1 := if n.hasGmk && n.gtk == NoGtk then DeriveGtk(n) else n;
    var n2 := WithCtx(n1, peer, NewCtx(n.mac, peer));
    if !responded then Reaction(n2, None, [], false) else Begin(n2, peer, false, rnd, sent)
  }

  /** The regeneration half of rekey_1905_layer_gtk. */
  function RekeyGtk(n: Node): Node {
    if !n.hasGmk then n else var n1 := DeriveGtk(n); n1.(rekeys := n.rekeys + 1)
  }

  /** The layer is destroyed and a new one made under the same AL MAC address, as when an enrollee becomes a proxy
      agent: it knows no peer and no group key, and its id counter starts from an unset byte again.  `derived` is
      history. */
  function Restarted(n: Node, gtkId: byte): Node { n.(gtk := NoGtk, gtkId := gtkId, rekeys := 0, peers := map[]) }

  /** One iteration of the distribution loop of rekey_1905_layer_gtk. */
  function SendGroup(n: Node, peer: Mac, sent: bool): Reaction {
    if peer !in n.peers then Reaction(n, None, [], false) else
    var c := n.peers[peer];
    var c1 := c.(counter := c.counter + 1);
    if n.gtk == NoGtk || c1.kek == NoPtk || !sent then Drop(n, peer, c1) else
    Reaction(WithCtx(n, peer, c1.(idx := 1)), Some(GroupFrame1(c1, n.gtkId, n.gtk)), [], true)
  }

  /** rekey_1905_layer_ptk for one peer.  The existence check is inverted: a known peer is refused,
      and for an unknown one the lookup creates an all-zero context whose PMK is then refused. */
  function RekeyPtkOne(n: Node, peer: Mac, rnd: Nonce, sent: bool): Reaction {
    if peer in n.peers then Reaction(n, None, [], false) else
    var n1 := WithCtx(n, peer, ZERO_CTX);
    if n1.peers[peer].pmk == NoPmk then Reaction(n1, None, [], false) else Begin(n1, peer, true, rnd, sent)
  }
}
