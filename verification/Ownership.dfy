/** Who frees what: the connection contexts of a configurator and the heap objects they point to. */
module Ownership {

  /** A heap object; 0 is the null pointer. */
  type Ptr = nat

  /** The pointers of one ec_connection_context_t, in the order in which they are freed.

      `eph`: public_init_proto_key, public_resp_proto_key, priv_init_proto_key, priv_resp_proto_key, E_Id, m, n, l,
      i_nonce, r_nonce, e_nonce, c_nonce, k1, k2, ke, bk, net_access_key.

      `boot`: resp_pub_boot_key, init_pub_boot_key, resp_priv_boot_key, init_priv_boot_key, responder_boot_key,
      initiator_boot_key.

      `rest`: group, order, prime, bn_ctx. */
  datatype RawContext = RawContext(eph: seq<Ptr>, boot: seq<Ptr>, rest: seq<Ptr>)

  const EPH: nat := 17
  const BOOT: nat := 6
  const REST: nat := 4
  const RESPONDER_BOOT_KEY: nat := 4

  function Nulls(n: nat): (r: seq<Ptr>)
    ensures |r| == n && forall i :: 0 <= i < n ==> r[i] == 0
  {
    seq(n, _ => 0)
  }

  type Context = c: RawContext | |c.eph| == EPH && |c.boot| == BOOT && |c.rest| == REST
    witness RawContext(Nulls(EPH), Nulls(BOOT), Nulls(REST))

  const ZERO: Context := RawContext(Nulls(EPH), Nulls(BOOT), Nulls(REST))

  function Slots(c: Context): seq<Ptr> { c.eph + c.boot + c.rest }

  /** `freed` is the sequence of objects handed to a free function so far; `next` is the next object to be allocated. */
  datatype State = State(connections: map<string, Context>, freed: seq<Ptr>, next: Ptr)

  function NonNull(slots: seq<Ptr>): seq<Ptr> {
    if slots == [] then [] else
    var p := slots[|slots| - 1];
    NonNull(slots[..|slots| - 1]) + if p == 0 then [] else [p]
  }

  // -- Operations -----------------------------------------------------------------------------------

  function With(s: State, mac: string, c: Context): State { s.(connections := s.connections[mac := c]) }

  /** free_ephemeral_context on the context of `mac`: free what is set, then zero it. */
  function FreeEphemeral(s: State, mac: string): State
    requires mac in s.connections
  {
    var c := s.connections[mac];
    With(s, mac, c.(eph := Nulls(EPH))).(freed := s.freed + NonNull(c.eph))
  }

  /** free_connection_ctx */
  function FreeConnection(s: State, mac: string): State
    requires mac in s.connections
  {
    var s1 := FreeEphemeral(s, mac);
    var c := s.connections[mac];
    With(s1, mac, ZERO).(freed := s1.freed + NonNull(c.boot) + NonNull(c.rest))
  }

  function ClearEphemeral(s: State, mac: string): State { if mac !in s.connections then s else FreeEphemeral(s, mac) }

  /** teardown_connection frees the ephemeral context a second time. */
  function Teardown(s: State, mac: string): State {
    if mac !in s.connections then s else FreeEphemeral(FreeConnection(s, mac), mac)
  }

  function SetSlot(c: Context, slot: nat, p: Ptr): (r: Context)
    requires slot < EPH + BOOT + REST
    ensures Slots(r) == Slots(c)[slot := p]
  {
    if slot < EPH then c.(eph := c.eph[slot := p])
    else if slot < EPH + BOOT then c.(boot := c.boot[slot - EPH := p])
    else c.(rest := c.rest[slot - EPH - BOOT := p])
  }

  /** The i-th of some new objects, or null where it could not be made. */
  function New(next: Ptr, i: nat, ok: bool): Ptr { if ok then next + i else 0 }

  /** A new object, or null, is stored in a slot; what the slot held before is not freed. */
  function Assign(s: State, mac: string, slot: nat, ok: bool): State {
    if mac !in s.connections || slot >= EPH + BOOT + REST then s else
    With(s, mac, SetSlot(s.connections[mac], slot, New(s.next, 0, ok))).(next := s.next + 1)
  }

  /** The same, but what the slot held before is freed first. */
  function Replace(s: State, mac: string, slot: nat, ok: bool): State {
    if mac !in s.connections || slot >= EPH + BOOT + REST then s else
    Assign(s, mac, slot, ok).(freed := s.freed + NonNull([Slots(s.connections[mac])[slot]]))
  }

  /** What onboard_enrollee is given and derives: the two keys of the caller's bootstrapping data, and whether the
      public and private parts could be extracted from them. */
  datatype Keys = Keys(responder: Ptr, initiator: Ptr, respPub: bool, initPub: bool, respPriv: bool, initPriv: bool)

  /** How far init_connection_ctx gets: not called, short of memory for the prime or for the BN_CTX, refusing the curve
      (or failing to read its order or prime), or done. */
  datatype Init = NotReached | NoPrime(bnCtx: bool) | NoBnCtx | Refused | Ready

  function NewContext(next: Ptr, k: Keys, group: bool, init: Init): Context {
    var nonces := if init.Ready? then [next + 8, next + 9, next + 10, next + 11] else Nulls(4);
    var g := New(next, 4, group);
    var rest :=
      match init
      case NotReached => Nulls(REST)
      case NoPrime(bnCtx) => [g, 0, 0, New(next, 7, bnCtx)]
      case NoBnCtx => [g, 0, next + 6, 0]
      case _ => [g, next + 5, next + 6, next + 7];
    RawContext(
      Nulls(8) + nonces + Nulls(5),
      [New(next, 0, k.respPub), New(next, 1, k.initPub), New(next, 2, k.respPriv), New(next, 3, k.initPriv),
          k.responder,
       k.initiator],
      rest)
  }

  /** On failure init_connection_ctx frees what it allocated, but leaves the pointers in the context. */
  function FreedByInit(next: Ptr, init: Init): seq<Ptr> {
    match init
    case NoPrime(bnCtx) => if bnCtx then [next + 7] else []
    case NoBnCtx => [next + 6]
    case Refused => [next + 5, next + 6, next + 7]
    case _ => []
  }

  /** The guard of onboard_enrollee: an unused MAC, and keys that exist, of which the responder's must be given. */
  predicate Accepts(s: State, mac: string, k: Keys) {
    mac !in s.connections && 0 < k.responder < s.next && k.initiator < s.next
  }

  /** init_connection_ctx fails on something it had allocated. */
  predicate FailsLate(init: Init) { init == NoPrime(true) || init.NoBnCtx? || init.Refused? }

  /** onboard_enrollee, and the loading of constant bootstrapping data, which stops short of init_connection_ctx: a MAC
      that is already in use is refused, and so is bootstrapping data without a responder key. */
  function Onboard(s: State, mac: string, k: Keys, group: bool, init: Init): State {
    if !Accepts(s, mac, k) then s else
    With(s, mac, NewContext(s.next, k, group, init))
      .(freed := s.freed + FreedByInit(s.next, init), next := s.next + 12)
  }

  /** The autoconf search chirp moves a context from the PHY to the AL MAC address: copy, erase, insert. */
  function Move(s: State, src: string, dst: string): State {
    if src !in s.connections then s else
    var c := s.connections[src];
    s.(connections := (map m | m in s.connections && m != src :: s.connections[m])[dst := c])
  }

  /** A chirp notification from an unknown MAC whose hash matches the context of `src`: the bootstrapping data is
      copied, pointers and all, to a second context.  (The remaining fields of that context are left uninitialised
      by the source; here they are zero.) */
  function ChirpCopy(s: State, src: string, dst: string): State {
    if !Copies(s, src, dst) then s else With(s, dst, ZERO.(boot := s.connections[src].boot))
  }

  /** The guard of that branch. */
  predicate Copies(s: State, src: string, dst: string) {
    src in s.connections && dst !in s.connections && s.connections[src].boot[RESPONDER_BOOT_KEY] != 0
  }

  // -- Runs -----------------------------------------------------------------------------------------

  datatype Op =
    | OpNewKey
    | OpOnboard(mac: string, keys: Keys, group: bool, init: Init)
    | OpAssign(mac: string, slot: nat, ok: bool)
    | OpReplace(mac: string, slot: nat, ok: bool)
    | OpClear(mac: string)
    | OpTeardown(mac: string)
    | OpMove(src: string, dst: string)
    | OpChirp(src: string, dst: string)

  /** OpNewKey is the caller making a key for bootstrapping data. */
  function Apply(s: State, op: Op): State {
    match op
    case OpNewKey => s.(next := s.next + 1)
    case OpOnboard(mac, keys, group, init) => Onboard(s, mac, keys, group, init)
    case OpAssign(mac, slot, ok) => Assign(s, mac, slot, ok)
    case OpReplace(mac, slot, ok) => Replace(s, mac, slot, ok)
    case OpClear(mac) => ClearEphemeral(s, mac)
    case OpTeardown(mac) => Teardown(s, mac)
    case OpMove(src, dst) => Move(s, src, dst)
    case OpChirp(src, dst) => ChirpCopy(s, src, dst)
  }

  function Run(ops: seq<Op>): State {
    if ops == [] then State(map[], [], 1) else Apply(Run(ops[..|ops| - 1]), ops[|ops| - 1])
  }

  /** The destructor frees the contexts of all connections, in the order of the map. */
  function Destroy(s: State, order: seq<string>): (r: State)
    requires forall m :: m in order ==> m in s.connections
    ensures r.connections.Keys == s.connections.Keys
  {
    if order == [] then s else FreeConnection(Destroy(s, order[..|order| - 1]), order[|order| - 1])
  }

  // -- Ownership ------------------------------------------------------------------------------------

  predicate NoDup(xs: seq<Ptr>) { forall i, j :: 0 <= i < j < |xs| ==> xs[i] != xs[j] }

  predicate HasSlot(s: State, m: string, i: nat) { m in s.connections && i < EPH + BOOT + REST }

  function At(s: State, m: string, i: nat): Ptr
    requires HasSlot(s, m, i)
  {
    Slots(s.connections[m])[i]
  }

  /** No object is pointed to from two places. */
  ghost predicate Unaliased(s: State) {
    forall m, i, m', j :: HasSlot(s, m, i) && HasSlot(s, m', j) && At(s, m, i) == At(s, m', j) != 0 ==>
      m == m' && i == j
  }

  /** No pointer dangles. */
  ghost predicate NoneFreed(s: State) {
    forall m, i :: HasSlot(s, m, i) && At(s, m, i) != 0 ==> At(s, m, i) !in s.freed
  }

  ghost predicate Bounded(s: State) {
    0 < s.next && (forall p :: p in s.freed ==> p < s.next)
        && (forall m, i :: HasSlot(s, m, i) ==> At(s, m, i) < s.next)
  }

  ghost predicate Owned(s: State) { NoDup(s.freed) && Unaliased(s) && NoneFreed(s) && Bounded(s) }

  lemma {:induction false} NonNullElements(slots: seq<Ptr>)
    ensures forall p :: p in NonNull(slots) <==> p in slots && p != 0
  {
    if slots != [] {
      var k := |slots| - 1;
      NonNullElements(slots[..k]);
      assert slots == slots[..k] + [slots[k]];
    }
  }

  ghost predicate SlotsDistinct(slots: seq<Ptr>) {
    forall i, j :: 0 <= i < j < |slots| && slots[i] != 0 ==> slots[i] != slots[j]
  }

  lemma {:induction false} NoDupAppend(xs: seq<Ptr>, ys: seq<Ptr>)
    ensures NoDup(xs + ys) <==> NoDup(xs) && NoDup(ys) && forall p :: p in xs ==> p !in ys
  {
    var zs := xs + ys;
    if NoDup(zs) {
      forall i, j | 0 <= i < j < |xs| ensures xs[i] != xs[j] {
        assert zs[i] != zs[j];
      }
      forall i, j | 0 <= i < j < |ys| ensures ys[i] != ys[j] {
        assert zs[|xs| + i] != zs[|xs| + j];
      }
      forall p | p in xs ensures p !in ys {
        var i :| 0 <= i < |xs| && xs[i] == p;
        forall j | 0 <= j < |ys| ensures ys[j] != p {
          assert zs[i] != zs[|xs| + j];
        }
      }
    }
    if NoDup(xs) && NoDup(ys) && forall p :: p in xs ==> p !in ys {
      forall i, j | 0 <= i < j < |zs| ensures zs[i] != zs[j] {
        if i < |xs| <= j { assert xs[i] in xs && ys[j - |xs|] in ys; }
      }
    }
  }

  /** The objects of a context are freed once each exactly when no two slots hold the same one. */
  lemma {:induction false} NonNullDistinct(slots: seq<Ptr>)
    ensures NoDup(NonNull(slots)) <==> SlotsDistinct(slots)
  {
    if slots != [] {
      var k := |slots| - 1;
      var before := slots[..k];
      NonNullDistinct(before);
      NonNullElements(before);
      DistinctSnoc(before, slots[k]);
      assert slots == before + [slots[k]];
      if slots[k] == 0 {
        assert NonNull(slots) == NonNull(before);
      } else {
        NoDupAppend(NonNull(before), [slots[k]]);
        assert slots[k] in [slots[k]];
      }
    }
  }

  lemma {:induction false} DistinctSnoc(xs: seq<Ptr>, p: Ptr)
    ensures SlotsDistinct(xs + [p]) <==> SlotsDistinct(xs) && (p != 0 ==> p !in xs)
  {
    var ys := xs + [p];
    if SlotsDistinct(ys) {
      forall i, j | 0 <= i < j < |xs| && xs[i] != 0 ensures xs[i] != xs[j] {
        assert ys[i] != 0 && ys[i] != ys[j];
      }
      forall i | 0 <= i < |xs| && p != 0 ensures xs[i] != p {
        assert ys[i] == xs[i] && ys[|xs|] == p;
      }
    }
  }

  lemma {:induction false} NonNullAppend(xs: seq<Ptr>, ys: seq<Ptr>)
    ensures NonNull(xs + ys) == NonNull(xs) + NonNull(ys)
  {
    if ys == [] {
      assert xs + ys == xs;
    } else {
      NonNullAppend(xs, ys[..|ys| - 1]);
      assert (xs + ys)[..|xs + ys| - 1] == xs + ys[..|ys| - 1];
    }
  }

  // -- What each operation frees --------------------------------------------------------------------

  lemma {:induction false} ConnectionFrees(s: State, mac: string)
    requires mac in s.connections
    ensures FreeConnection(s, mac).freed == s.freed + NonNull(Slots(s.connections[mac]))
    ensures FreeConnection(s, mac).connections == s.connections[mac := ZERO]
  {
    var c := s.connections[mac];
    NonNullAppend(c.eph, c.boot);
    NonNullAppend(c.eph + c.boot, c.rest);
  }

  lemma {:induction false} NullsFreeNothing(n: nat)
    ensures NonNull(Nulls(n)) == []
  {
    if n > 0 {
      assert Nulls(n)[..n - 1] == Nulls(n - 1);
      NullsFreeNothing(n - 1);
    }
  }

  /** The second free of the ephemeral context in teardown_connection never does anything, because the first one
      zeroed it; a second teardown frees nothing at all. */
  lemma {:induction false} SecondFreeIsNoOp(s: State, mac: string)
    ensures mac in s.connections ==> Teardown(s, mac) == FreeConnection(s, mac)
    ensures Teardown(Teardown(s, mac), mac) == Teardown(s, mac)
  {
    if mac in s.connections {
      NullsFreeNothing(EPH);
      NullsFreeNothing(BOOT);
      NullsFreeNothing(REST);
      assert s.connections[mac := ZERO][mac := ZERO] == s.connections[mac := ZERO];
      ConnectionFrees(s, mac);
    }
  }

  // -- Which operations keep ownership --------------------------------------------------------------

  /** An object that some context points to, or that was freed. */
  ghost predicate Taken(s: State, p: Ptr) {
    p != 0 && (p in s.freed || exists m, i :: HasSlot(s, m, i) && At(s, m, i) == p)
  }

  /** The operations after which something is shared or dangles: a chirp that makes a second context, and an onboarding
      that takes effect and fails in init_connection_ctx, or is given keys that are in use, were freed, or are one. */
  ghost predicate Breaks(s: State, op: Op) {
    match op
    case OpChirp(src, dst) => Copies(s, src, dst)
    case OpOnboard(mac, k, _, init) =>
      Accepts(s, mac, k)
      && (FailsLate(init) || Taken(s, k.responder) || Taken(s, k.initiator) || k.responder == k.initiator)
    case _ => false
  }

  lemma {:induction false} FreeingKeepsOwned(s: State, mac: string, c': Context, gone: seq<Ptr>, s': State)
    requires Owned(s) && mac in s.connections
    requires s' == With(s, mac, c').(freed := s.freed + NonNull(gone))
    requires var c := s.connections[mac];
             || (gone == Slots(c) && c' == ZERO)
             || (gone == c.eph && c' == c.(eph := Nulls(EPH)))
    ensures Owned(s')
  {
    var c := s.connections[mac];
    forall i, j | 0 <= i < j < |gone| && gone[i] != 0 ensures gone[i] != gone[j] {
      assert At(s, mac, i) == gone[i] && At(s, mac, j) == gone[j];
    }
    NonNullDistinct(gone);
    NonNullElements(gone);
    forall p | p in gone && p != 0 ensures exists i :: 0 <= i < |gone| && HasSlot(s, mac, i) && At(s, mac, i) == p {
      var i :| 0 <= i < |gone| && gone[i] == p;
      assert At(s, mac, i) == p;
    }
    NoDupAppend(s.freed, NonNull(gone));
    forall m, i: nat | HasSlot(s', m, i) && At(s', m, i) != 0
      ensures HasSlot(s, m, i) && At(s, m, i) == At(s', m, i) && At(s', m, i) !in NonNull(gone)
    {
      if m == mac { assert i >= EPH; }
    }
  }

  /** One step from a state in which every object has one owner leads to such a state exactly when it does not break
      ownership, as defined by its arguments and the state before it. */
  lemma {:induction false} KeepsOwnedIff(s: State, op: Op)
    requires Owned(s)
    ensures Bounded(Apply(s, op)) && (Owned(Apply(s, op)) <==> !Breaks(s, op))
  {
    match op
    case OpNewKey => NewKeyKeepsOwned(s);
    case OpOnboard(mac, keys, group, init) => OnboardKeepsOwnedIff(s, mac, keys, group, init);
    case OpAssign(mac, slot, ok) => AssignKeepsOwned(s, mac, slot, ok);
    case OpReplace(mac, slot, ok) => ReplaceKeepsOwned(s, mac, slot, ok);
    case OpClear(mac) =>
      if mac in s.connections {
        FreeingKeepsOwned(s, mac, s.connections[mac].(eph := Nulls(EPH)), s.connections[mac].eph, Apply(s, op));
      }
    case OpTeardown(mac) =>
      if mac in s.connections {
        SecondFreeIsNoOp(s, mac);
        ConnectionFrees(s, mac);
        FreeingKeepsOwned(s, mac, ZERO, Slots(s.connections[mac]), Apply(s, op));
      }
    case OpMove(src, dst) => MoveKeepsOwned(s, src, dst);
    case OpChirp(src, dst) => ChirpAliases(s, src, dst);
  }

  lemma {:induction false} NewKeyKeepsOwned(s: State)
    requires Owned(s)
    ensures Owned(Apply(s, OpNewKey))
  {
    var s' := Apply(s, OpNewKey);
    assert forall m, i: nat :: HasSlot(s', m, i) <==> HasSlot(s, m, i);
    assert forall m, i: nat :: HasSlot(s', m, i) ==> At(s', m, i) == At(s, m, i);
  }

  lemma {:induction false} AssignKeepsOwned(s: State, mac: string, slot: nat, ok: bool)
    requires Owned(s)
    ensures Owned(Assign(s, mac, slot, ok))
  {
    var s' := Assign(s, mac, slot, ok);
    if s' != s {
      forall m, i: nat | HasSlot(s', m, i)
        ensures HasSlot(s, m, i) && At(s', m, i) == if m == mac && i == slot then New(s.next, 0, ok) else At(s, m, i)
      {
      }
    }
  }

  lemma {:induction false} ReplaceKeepsOwned(s: State, mac: string, slot: nat, ok: bool)
    requires Owned(s)
    ensures Owned(Replace(s, mac, slot, ok))
  {
    if mac in s.connections && slot < EPH + BOOT + REST {
      var p := At(s, mac, slot);
      NonNullOne(p);
      AssignKeepsOwned(s, mac, slot, ok);
      var s1, s' := Assign(s, mac, slot, ok), Replace(s, mac, slot, ok);
      forall m, i: nat | p != 0 && HasSlot(s1, m, i) ensures At(s1, m, i) != p {
        assert HasSlot(s, m, i) && At(s1, m, i) == if m == mac && i == slot then New(s.next, 0, ok) else At(s, m, i);
      }
      FreeUnheld(s1, NonNull([p]), s');
    }
  }

  lemma {:induction false} NonNullOne(p: Ptr)
    ensures NonNull([p]) == if p == 0 then [] else [p]
  {
    assert [p][..0] == [];
  }

  /** An object that no context points to any more is freed. */
  lemma {:induction false} FreeUnheld(s: State, gone: seq<Ptr>, s': State)
    requires Owned(s) && s' == s.(freed := s.freed + gone) && NoDup(gone)
    requires forall p :: p in gone ==> 0 < p < s.next && !Taken(s, p)
    ensures Owned(s')
  {
    NoDupAppend(s.freed, gone);
    assert forall m, i: nat :: HasSlot(s', m, i) <==> HasSlot(s, m, i);
    assert forall m, i: nat :: HasSlot(s', m, i) ==> At(s', m, i) == At(s, m, i);
  }

  /** A chirp that takes effect makes two contexts point to the responder's bootstrapping key. */
  lemma {:induction false} ChirpAliases(s: State, src: string, dst: string)
    ensures Bounded(s) ==> Bounded(ChirpCopy(s, src, dst))
    ensures Copies(s, src, dst) ==> !Unaliased(ChirpCopy(s, src, dst))
  {
    var s' := ChirpCopy(s, src, dst);
    if Copies(s, src, dst) {
      var i := EPH + RESPONDER_BOOT_KEY;
      assert HasSlot(s', src, i) && HasSlot(s', dst, i) && At(s', src, i) == At(s', dst, i) != 0;
      forall m, j: nat | HasSlot(s', m, j) ensures At(s', m, j) == 0 || (HasSlot(s, if m == dst then src else m, j)
                                                    && At(s', m, j) == At(s, if m == dst then src else m, j)) {
      }
    }
  }

  // The slots of a new context: the nonces, the derived keys, the two given keys, and the group data.
  const NONCES: nat := 8
  const GROUP: nat := EPH + BOOT

  /** Every pointer of a new context is null, a given key, or one of the twelve new objects, each in a slot of its
      own. */
  lemma {:induction false} NewSlots(next: Ptr, k: Keys, group: bool, init: Init, i: nat)
    requires i < EPH + BOOT + REST
    ensures var p := Slots(NewContext(next, k, group, init))[i];
            if i == EPH + 4 then p == k.responder
            else if i == EPH + 5 then p == k.initiator
            else p == 0 || p == next + (if i < EPH then i else if i < EPH + BOOT then i - EPH else i - GROUP + 4)
    ensures i < NONCES ==> Slots(NewContext(next, k, group, init))[i] == 0
    ensures NONCES + 4 <= i < EPH ==> Slots(NewContext(next, k, group, init))[i] == 0
  {
  }

  /** An onboarding that takes effect adds one context and leaves the others alone. */
  lemma {:induction false} OnboardSlots(s: State, mac: string, k: Keys, group: bool, init: Init, s': State, m: string,
      i: nat)
    requires s' == Onboard(s, mac, k, group, init) && Accepts(s, mac, k) && HasSlot(s', m, i)
    ensures m != mac ==> HasSlot(s, m, i) && At(s', m, i) == At(s, m, i)
    ensures m == mac ==> At(s', m, i) == Slots(NewContext(s.next, k, group, init))[i]
  {
  }

  lemma {:induction false} OnboardBounded(s: State, mac: string, k: Keys, group: bool, init: Init, s': State)
    requires Bounded(s) && s' == Onboard(s, mac, k, group, init)
    ensures Bounded(s')
  {
    if Accepts(s, mac, k) {
      forall m, i: nat | HasSlot(s', m, i) ensures At(s', m, i) < s'.next {
        OnboardSlots(s, mac, k, group, init, s', m, i);
        NewSlots(s.next, k, group, init, i);
      }
    }
  }

  lemma {:induction false} OnboardKeepsOwned(s: State, mac: string, k: Keys, group: bool, init: Init, s': State)
    requires Owned(s) && s' == Onboard(s, mac, k, group, init) && Accepts(s, mac, k)
    requires !FailsLate(init) && !Taken(s, k.responder) && !Taken(s, k.initiator)
    requires k.responder != k.initiator
    ensures Owned(s')
  {
    OnboardBounded(s, mac, k, group, init, s');
    forall m, i: nat, m', j: nat | HasSlot(s', m, i) && HasSlot(s', m', j) && At(s', m, i) == At(s', m', j) != 0
      ensures m == m' && i == j
    {
      OnboardSlots(s, mac, k, group, init, s', m, i);
      OnboardSlots(s, mac, k, group, init, s', m', j);
      NewSlots(s.next, k, group, init, i);
      NewSlots(s.next, k, group, init, j);
    }
    forall m, i: nat | HasSlot(s', m, i) && At(s', m, i) != 0 ensures At(s', m, i) !in s'.freed {
      OnboardSlots(s, mac, k, group, init, s', m, i);
      NewSlots(s.next, k, group, init, i);
    }
  }

  /** A failure of init_connection_ctx leaves a pointer to something it freed. */
  lemma {:induction false} FailureDangles(s: State, mac: string, k: Keys, group: bool, init: Init, s': State)
    requires s' == Onboard(s, mac, k, group, init) && Accepts(s, mac, k) && FailsLate(init)
    ensures !NoneFreed(s') && exists p :: p in Slots(s'.connections[mac]) && p != 0 && p in s'.freed
  {
    var i := if init.NoPrime? then GROUP + 3 else GROUP + 2;
    OnboardSlots(s, mac, k, group, init, s', mac, i);
    assert HasSlot(s', mac, i) && At(s', mac, i) in Slots(s'.connections[mac]) && At(s', mac, i) in s'.freed;
  }

  lemma {:induction false} TakenKeyBreaks(s: State, mac: string, k: Keys, group: bool, init: Init, s': State)
    requires s' == Onboard(s, mac, k, group, init) && Accepts(s, mac, k)
    requires Taken(s, k.responder) || Taken(s, k.initiator) || k.responder == k.initiator
    ensures !Unaliased(s') || !NoneFreed(s')
  {
    var r, q := EPH + 4, EPH + 5;
    assert HasSlot(s', mac, r) && HasSlot(s', mac, q);
    NewSlots(s.next, k, group, init, r);
    NewSlots(s.next, k, group, init, q);
    if k.responder != k.initiator {
      var i := if Taken(s, k.responder) then r else q;
      var p := At(s', mac, i);
      if p !in s.freed {
        var m, j :| HasSlot(s, m, j) && At(s, m, j) == p;
        assert HasSlot(s', m, j) && At(s', m, j) == p && m != mac;
      }
    }
  }

  lemma {:induction false} OnboardKeepsOwnedIff(s: State, mac: string, k: Keys, group: bool, init: Init)
    requires Owned(s)
    ensures var op := OpOnboard(mac, k, group, init);
            Bounded(Apply(s, op)) && (Owned(Apply(s, op)) <==> !Breaks(s, op))
  {
    var s' := Onboard(s, mac, k, group, init);
    OnboardBounded(s, mac, k, group, init, s');
    if Accepts(s, mac, k) {
      if FailsLate(init) {
        FailureDangles(s, mac, k, group, init, s');
      } else if Taken(s, k.responder) || Taken(s, k.initiator) || k.responder == k.initiator {
        TakenKeyBreaks(s, mac, k, group, init, s');
      } else {
        OnboardKeepsOwned(s, mac, k, group, init, s');
      }
    }
  }

  lemma {:induction false} MoveKeepsOwned(s: State, src: string, dst: string)
    requires Owned(s)
    ensures Owned(Move(s, src, dst))
  {
    var s' := Move(s, src, dst);
    if src in s.connections {
      forall m, i: nat | HasSlot(s', m, i) ensures HasSlot(s, if m == dst then src else m, i)
          && At(s', m, i) == At(s, if m == dst then src else m, i) {
      }
    }
  }

  // -- Exactly when the destructor double frees ------------------------------------------------------

  ghost predicate IsOrder(order: seq<string>, s: State) {
    (forall i, j :: 0 <= i < j < |order| ==> order[i] != order[j]) && (forall m :: m in order <==> m in s.connections)
  }

  /** Contexts that the destructor has not reached are as they were. */
  lemma {:induction false} DestroyLeaves(s: State, order: seq<string>, m: string)
    requires (forall x :: x in order ==> x in s.connections) && m in s.connections && m !in order
    ensures Destroy(s, order).connections[m] == s.connections[m]
  {
    if order != [] {
      var k := |order| - 1;
      assert order[k] in order;
      DestroyLeaves(s, order[..k], m);
      ConnectionFrees(Destroy(s, order[..k]), order[k]);
    }
  }

  /** Nothing the first k contexts point to is shared, or freed already. */
  ghost predicate CleanUpTo(s: State, order: seq<string>, k: nat)
    requires k <= |order| && forall x :: x in order ==> x in s.connections
  {
    && (forall a :: 0 <= a < k ==> SlotsDistinct(Slots(s.connections[order[a]])))
    && (forall a, p :: 0 <= a < k && p in Slots(s.connections[order[a]]) && p != 0 ==> p !in s.freed)
    && (forall a, b, p :: 0 <= a < b < k && p in Slots(s.connections[order[a]]) && p != 0 ==>
          p !in Slots(s.connections[order[b]]))
  }

  ghost predicate Earlier(s: State, order: seq<string>, k: nat, p: Ptr)
    requires k <= |order| && forall x :: x in order ==> x in s.connections
  {
    p != 0 && exists a :: 0 <= a < k && p in Slots(s.connections[order[a]])
  }

  lemma {:induction false} CleanSnoc(s: State, order: seq<string>, k: nat)
    requires k < |order| && forall x :: x in order ==> x in s.connections
    ensures var slots := Slots(s.connections[order[k]]);
            CleanUpTo(s, order, k + 1) <==>
            && CleanUpTo(s, order, k) && SlotsDistinct(slots)
            && forall p :: p in slots && p != 0 ==> p !in s.freed && !Earlier(s, order, k, p)
  {
  }

  /** What the destructor has freed after k contexts, and whether anything twice. */
  lemma {:induction false} DestroyFrees(s: State, order: seq<string>, k: nat)
    requires k <= |order| && IsOrder(order, s)
    ensures forall p :: p in Destroy(s, order[..k]).freed <==> p in s.freed || Earlier(s, order, k, p)
    ensures NoDup(Destroy(s, order[..k]).freed) <==> NoDup(s.freed) && CleanUpTo(s, order, k)
  {
    if k > 0 {
      var m := order[k - 1];
      assert m in order && order[..k][..k - 1] == order[..k - 1];
      DestroyFrees(s, order, k - 1);
      DestroyLeaves(s, order[..k - 1], m);
      var before := Destroy(s, order[..k - 1]);
      ConnectionFrees(before, m);
      var slots := Slots(s.connections[m]);
      FreesOnTop(before.freed, slots);
      CleanSnoc(s, order, k - 1);
      EarlierSnoc(s, order, k, slots);
    }
  }

  lemma {:induction false} EarlierSnoc(s: State, order: seq<string>, k: nat, slots: seq<Ptr>)
    requires 0 < k <= |order| && IsOrder(order, s) && order[k - 1] in s.connections
    requires slots == Slots(s.connections[order[k - 1]])
    ensures forall p :: Earlier(s, order, k, p) <==> Earlier(s, order, k - 1, p) || (p != 0 && p in slots)
  {
  }

  lemma {:induction false} FreesOnTop(log: seq<Ptr>, slots: seq<Ptr>)
    ensures forall p :: p in log + NonNull(slots) <==> p in log || (p != 0 && p in slots)
    ensures NoDup(log + NonNull(slots)) <==>
            NoDup(log) && SlotsDistinct(slots) && forall p :: p in slots && p != 0 ==> p !in log
  {
    NonNullElements(slots);
    NonNullDistinct(slots);
    NoDupAppend(log, NonNull(slots));
  }

  lemma {:induction false} CleanIffUnaliased(s: State, order: seq<string>)
    requires IsOrder(order, s)
    ensures CleanUpTo(s, order, |order|) <==> Unaliased(s) && NoneFreed(s)
  {
    if CleanUpTo(s, order, |order|) {
      forall m, i: nat, m', j: nat | HasSlot(s, m, i) && HasSlot(s, m', j) && At(s, m, i) == At(s, m', j) != 0
        ensures m == m' && i == j
      {
        var a :| 0 <= a < |order| && order[a] == m;
        var b :| 0 <= b < |order| && order[b] == m';
        assert At(s, m, i) in Slots(s.connections[m]) && At(s, m', j) in Slots(s.connections[m']);
      }
      forall m, i: nat | HasSlot(s, m, i) && At(s, m, i) != 0 ensures At(s, m, i) !in s.freed {
        var a :| 0 <= a < |order| && order[a] == m;
        assert At(s, m, i) in Slots(s.connections[m]);
      }
    }
    if Unaliased(s) && NoneFreed(s) { UnaliasedIsClean(s, order); }
  }

  lemma {:induction false} UnaliasedIsClean(s: State, order: seq<string>)
    requires IsOrder(order, s) && Unaliased(s) && NoneFreed(s)
    ensures CleanUpTo(s, order, |order|)
  {
    forall a | 0 <= a < |order| ensures SlotsDistinct(Slots(s.connections[order[a]])) {
      assert order[a] in order;
      var slots := Slots(s.connections[order[a]]);
      forall i, j | 0 <= i < j < |slots| && slots[i] != 0 ensures slots[i] != slots[j] {
        assert At(s, order[a], i) == slots[i] && At(s, order[a], j) == slots[j];
      }
    }
    forall a, p | 0 <= a < |order| && p in Slots(s.connections[order[a]]) && p != 0 ensures p !in s.freed {
      assert order[a] in order;
      var i :| 0 <= i < |Slots(s.connections[order[a]])| && Slots(s.connections[order[a]])[i] == p;
      assert At(s, order[a], i) == p;
    }
    forall a, b, p | 0 <= a < b < |order| && p in Slots(s.connections[order[a]]) && p != 0
      ensures p !in Slots(s.connections[order[b]])
    {
      assert order[a] in order && order[b] in order;
      var i :| 0 <= i < |Slots(s.connections[order[a]])| && Slots(s.connections[order[a]])[i] == p;
      assert At(s, order[a], i) == p;
      forall j | 0 <= j < |Slots(s.connections[order[b]])| ensures Slots(s.connections[order[b]])[j] != p {
        assert At(s, order[b], j) == Slots(s.connections[order[b]])[j];
      }
    }
  }

  /** From any state, in whatever order the map is walked, the destructor frees nothing twice exactly when nothing was
      freed twice before, no object is pointed to from two places, and no pointer dangles. */
  lemma {:induction false} DestructorIsSafeIff(s: State, order: seq<string>)
    requires IsOrder(order, s)
    ensures NoDup(Destroy(s, order).freed) <==> NoDup(s.freed) && Unaliased(s) && NoneFreed(s)
  {
    DestroyFrees(s, order, |order|);
    assert order[..|order|] == order;
    CleanIffUnaliased(s, order);
  }

  // -- Whole runs -----------------------------------------------------------------------------------

  /** In whatever order the map is walked. */
  ghost predicate DestructorSafe(s: State) {
    forall order :: IsOrder(order, s) ==> NoDup(Destroy(s, order).freed)
  }

  lemma {:induction false} OrderExists(keys: set<string>) returns (order: seq<string>)
    ensures (forall i, j :: 0 <= i < j < |order| ==> order[i] != order[j]) && (forall m :: m in order <==> m in keys)
  {
    order := [];
    if keys != {} {
      var k :| k in keys;
      var rest := OrderExists(keys - {k});
      order := rest + [k];
    }
  }

  lemma {:induction false} DestructorSafeIff(s: State)
    ensures DestructorSafe(s) <==> NoDup(s.freed) && Unaliased(s) && NoneFreed(s)
  {
    var order := OrderExists(s.connections.Keys);
    assert IsOrder(order, s);
    DestructorIsSafeIff(s, order);
    forall o | IsOrder(o, s) ensures NoDup(Destroy(s, o).freed) <==> NoDup(s.freed) && Unaliased(s) && NoneFreed(s) {
      DestructorIsSafeIff(s, o);
    }
  }

  /** Step i of the run breaks ownership. */
  ghost predicate BreaksAt(ops: seq<Op>, i: nat) { i < |ops| && Breaks(Run(ops[..i]), ops[i]) }

  ghost predicate NoneBreaks(ops: seq<Op>) { forall i :: 0 <= i < |ops| ==> !BreaksAt(ops, i) }

  lemma {:induction false} RunSnoc(ops: seq<Op>, i: nat)
    requires i < |ops|
    ensures Run(ops[..i + 1]) == Apply(Run(ops[..i]), ops[i])
  {
    assert ops[..i + 1][..i] == ops[..i];
  }

  lemma {:induction false} OwnedUpTo(ops: seq<Op>, k: nat)
    requires k <= |ops| && forall i :: 0 <= i < k ==> !BreaksAt(ops, i)
    ensures Owned(Run(ops[..k]))
  {
    if k > 0 {
      OwnedUpTo(ops, k - 1);
      RunSnoc(ops, k - 1);
      assert !BreaksAt(ops, k - 1);
      KeepsOwnedIff(Run(ops[..k - 1]), ops[k - 1]);
    }
  }

  /** Context lifetimes.  In every run in which no step breaks ownership, no object is freed twice. */
  lemma {:induction false} NoDoubleFree(ops: seq<Op>)
    requires NoneBreaks(ops)
    ensures Owned(Run(ops)) && NoDup(Run(ops).freed) && DestructorSafe(Run(ops))
  {
    OwnedUpTo(ops, |ops|);
    assert ops[..|ops|] == ops;
    DestructorSafeIff(Run(ops));
  }

  /** Exactly those runs are safe at every moment: the destructor, called after any number of the steps, frees nothing
      twice, exactly when no step breaks ownership. */
  lemma {:induction false} SafeThroughoutIff(ops: seq<Op>)
    ensures (forall k :: 0 <= k <= |ops| ==> DestructorSafe(Run(ops[..k]))) <==> NoneBreaks(ops)
  {
    if NoneBreaks(ops) {
      forall k | 0 <= k <= |ops| ensures DestructorSafe(Run(ops[..k])) {
        OwnedUpTo(ops, k);
        DestructorSafeIff(Run(ops[..k]));
      }
    } else {
      var n: nat :| n < |ops| && BreaksAt(ops, n);
      var k := FirstBreak(ops, n);
      BreakIsUnsafe(ops, k);
    }
  }

  lemma {:induction false} BreakIsUnsafe(ops: seq<Op>, k: nat)
    requires BreaksAt(ops, k) && forall i :: 0 <= i < k ==> !BreaksAt(ops, i)
    ensures !DestructorSafe(Run(ops[..k + 1]))
  {
    OwnedUpTo(ops, k);
    RunSnoc(ops, k);
    KeepsOwnedIff(Run(ops[..k]), ops[k]);
    DestructorSafeIff(Run(ops[..k + 1]));
  }

  lemma {:induction false} FirstBreak(ops: seq<Op>, n: nat) returns (k: nat)
    requires BreaksAt(ops, n)
    ensures k <= n && BreaksAt(ops, k) && forall i :: 0 <= i < k ==> !BreaksAt(ops, i)
    decreases n
  {
    k := n;
    if i: nat :| i < n && BreaksAt(ops, i) {
      k := FirstBreak(ops, i);
    }
  }

  /** Whenever a chirp makes a second context, the destructor afterwards frees the responder's key twice. */
  lemma {:induction false} ChirpDoubleFrees(s: State, src: string, dst: string)
    requires Copies(s, src, dst)
    ensures !DestructorSafe(ChirpCopy(s, src, dst))
  {
    ChirpAliases(s, src, dst);
    DestructorSafeIff(ChirpCopy(s, src, dst));
  }

  /** Whenever an onboarding takes effect and init_connection_ctx fails on something it had allocated, the destructor
      afterwards, or a teardown of the connection, frees that a second time. */
  lemma {:induction false} FailedOnboardingDoubleFrees(s: State, mac: string, k: Keys, group: bool, init: Init)
    requires Accepts(s, mac, k) && FailsLate(init)
    ensures !DestructorSafe(Onboard(s, mac, k, group, init))
    ensures !NoDup(Teardown(Onboard(s, mac, k, group, init), mac).freed)
  {
    var s' := Onboard(s, mac, k, group, init);
    FailureDangles(s, mac, k, group, init, s');
    DestructorSafeIff(s');
    ConnectionFrees(s', mac);
    SecondFreeIsNoOp(s', mac);
    var slots := Slots(s'.connections[mac]);
    FreesOnTop(s'.freed, slots);
  }

  /** The shortest such run: one key on an unsupported curve, onboarded, then the destructor. */
  lemma {:induction false} UnsupportedCurve()
    ensures var onboard := OpOnboard("02:00:00:00:00:01", Keys(1, 0, true, false, false, false), true, Refused);
            Run([OpNewKey, onboard]).freed == [7, 8, 9] && !DestructorSafe(Run([OpNewKey, onboard]))
  {
    var keys := Keys(1, 0, true, false, false, false);
    var onboard := OpOnboard("02:00:00:00:00:01", keys, true, Refused);
    var ops := [OpNewKey, onboard];
    RunSnoc(ops, 0);
    RunSnoc(ops, 1);
    assert ops[..0] == [] && ops[..2] == ops;
    var s := Run(ops[..1]);
    assert s == State(map[], [], 2);
    FailedOnboardingDoubleFrees(s, onboard.mac, keys, true, Refused);
  }
}
