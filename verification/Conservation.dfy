/** What each operation on the connection contexts does with the objects they point to: nothing is lost but by two of
    them, and what is not lost is freed exactly once. */
module Conservation {
  import opened Ownership

  /** Some context points to the object. */
  ghost predicate Held(s: State, p: Ptr) { p != 0 && exists m, i :: HasSlot(s, m, i) && At(s, m, i) == p }

  // -- The operations -------------------------------------------------------------------------------

  /** All slots are as they were, but for one. */
  ghost predicate OnlySlot(s: State, s': State, mac: string, slot: nat) {
    && s'.connections.Keys == s.connections.Keys
    && forall m, i :: HasSlot(s, m, i) && (m != mac || i != slot) ==> At(s', m, i) == At(s, m, i)
  }

  /** An assignment puts a new object or null into its slot and frees nothing. */
  lemma {:induction false} AssignStores(s: State, mac: string, slot: nat, ok: bool)
    requires HasSlot(s, mac, slot)
    ensures var s' := Apply(s, OpAssign(mac, slot, ok));
            && OnlySlot(s, s', mac, slot) && At(s', mac, slot) == (if ok then s.next else 0)
            && s'.freed == s.freed && s'.next == s.next + 1
  {
  }

  /** A replacement does the same, and frees what was in the slot. */
  lemma {:induction false} ReplaceStores(s: State, mac: string, slot: nat, ok: bool)
    requires HasSlot(s, mac, slot)
    ensures var s' := Apply(s, OpReplace(mac, slot, ok));
            && OnlySlot(s, s', mac, slot) && At(s', mac, slot) == (if ok then s.next else 0) && s'.next == s.next + 1
            && s'.freed == s.freed + if At(s, mac, slot) == 0 then [] else [At(s, mac, slot)]
  {
    AssignStores(s, mac, slot, ok);
    NonNullOne(At(s, mac, slot));
  }

  /** After a move the context is found under the new address and no longer under the old one; nothing is freed. */
  lemma {:induction false} MoveMoves(s: State, src: string, dst: string)
    requires src in s.connections
    ensures var s' := Apply(s, OpMove(src, dst));
            && s'.connections.Keys == s.connections.Keys - {src} + {dst} && s'.connections[dst] == s.connections[src]
            && (forall m :: m in s.connections && m != src && m != dst ==> s'.connections[m] == s.connections[m])
            && s'.freed == s.freed && s'.next == s.next
  {
  }

  /** A chirp by hash gives the new address the bootstrapping pointers of the context it found, and no others. */
  lemma {:induction false} ChirpCopies(s: State, src: string, dst: string)
    requires src in s.connections && dst !in s.connections && s.connections[src].boot[4] != 0
    ensures var s' := Apply(s, OpChirp(src, dst));
            && s'.connections == s.connections[dst := s'.connections[dst]] && s'.freed == s.freed
            && s'.connections[dst].boot == s.connections[src].boot
            && (forall i :: 0 <= i < 17 ==> s'.connections[dst].eph[i] == 0)
            && forall i :: 0 <= i < 4 ==> s'.connections[dst].rest[i] == 0
  {
  }

  /** Clearing frees the ephemeral objects and forgets them, and touches nothing else. */
  lemma {:induction false} ClearFrees(s: State, mac: string)
    requires mac in s.connections
    ensures var s' := Apply(s, OpClear(mac));
            && s'.connections == s.connections[mac := s'.connections[mac]]
            && s'.connections[mac].boot == s.connections[mac].boot
            && s'.connections[mac].rest == s.connections[mac].rest
            && (forall i :: 0 <= i < 17 ==> s'.connections[mac].eph[i] == 0)
            && forall p :: p in s'.freed <==> p in s.freed || (p != 0 && p in s.connections[mac].eph)
  {
    NonNullElements(s.connections[mac].eph);
  }

  /** A teardown frees all objects of the context and forgets them. */
  lemma {:induction false} TeardownFrees(s: State, mac: string)
    requires mac in s.connections
    ensures var s' := Apply(s, OpTeardown(mac));
            && s'.connections == s.connections[mac := s'.connections[mac]]
            && (forall i :: HasSlot(s', mac, i) ==> At(s', mac, i) == 0)
            && forall p :: p in s'.freed <==> p in s.freed || (p != 0 && p in Slots(s.connections[mac]))
  {
    ConnectionFrees(s, mac);
    SecondFreeIsNoOp(s, mac);
    NonNullElements(Slots(s.connections[mac]));
  }

  /** What init_connection_ctx has allocated, and what of it it has freed again. */
  ghost predicate Initialised(s: State, s': State, c: Context, group: bool, init: Init) {
    && (c.rest[0] != 0 <==> group && !init.NotReached?)
    && (c.rest[1] != 0 <==> init.Refused? || init.Ready?)
    && (c.rest[2] != 0 <==> init.NoBnCtx? || init.Refused? || init.Ready?)
    && (c.rest[3] != 0 <==> init == NoPrime(true) || init.Refused? || init.Ready?)
    && (forall i :: 0 <= i < 17 ==> (c.eph[i] != 0 <==> 8 <= i < 12 && init.Ready?))
    && s'.freed == s.freed + match init
                             case NoPrime(bnCtx) => if bnCtx then [c.rest[3]] else []
                             case NoBnCtx => [c.rest[2]]
                             case Refused => [c.rest[1], c.rest[2], c.rest[3]]
                             case _ => []
  }

  /** An accepted onboarding adds one context: the two keys it was given, those parts of them that could be extracted,
      and what init_connection_ctx made; all but the keys are new objects. */
  lemma {:induction false} OnboardBuilds(s: State, mac: string, k: Keys, group: bool, init: Init)
    requires mac !in s.connections && 0 < k.responder < s.next && k.initiator < s.next
    ensures var s' := Apply(s, OpOnboard(mac, k, group, init));
            && mac in s'.connections && s'.connections == s.connections[mac := s'.connections[mac]]
            && var c, got := s'.connections[mac], [k.respPub, k.initPub, k.respPriv, k.initPriv];
               && c.boot[4] == k.responder && c.boot[5] == k.initiator
               && (forall i :: 0 <= i < 4 ==> (c.boot[i] != 0 <==> got[i]))
               && (forall i :: 0 <= i < 27 && i != 21 && i != 22 && Slots(c)[i] != 0 ==>
                     s.next <= Slots(c)[i] < s'.next)
               && Initialised(s, s', c, group, init)
  {
    BuiltContext(s, mac, k, group, init);
    var c := Apply(s, OpOnboard(mac, k, group, init)).connections[mac];
    forall i | 0 <= i < 27 && i != 21 && i != 22 && Slots(c)[i] != 0 ensures s.next <= Slots(c)[i] < s.next + 12 {
      NewSlots(s.next, k, group, init, i);
    }
  }

  lemma {:induction false} BuiltContext(s: State, mac: string, k: Keys, group: bool, init: Init)
    requires mac !in s.connections && 0 < k.responder < s.next && k.initiator < s.next
    ensures var s' := Apply(s, OpOnboard(mac, k, group, init));
            && mac in s'.connections && s'.connections == s.connections[mac := s'.connections[mac]]
            && var c, got := s'.connections[mac], [k.respPub, k.initPub, k.respPriv, k.initPriv];
               && c.boot[4] == k.responder && c.boot[5] == k.initiator
               && (forall i :: 0 <= i < 4 ==> (c.boot[i] != 0 <==> got[i]))
               && Initialised(s, s', c, group, init)
  {
    EphBuilt(s.next, k, group, init);
    RestBuilt(s.next, k, group, init);
  }

  lemma {:induction false} EphBuilt(next: Ptr, k: Keys, group: bool, init: Init)
    requires next > 0
    ensures var c := NewContext(next, k, group, init);
            forall i :: 0 <= i < 17 ==> (c.eph[i] != 0 <==> 8 <= i < 12 && init.Ready?)
  {
  }

  lemma {:induction false} RestBuilt(next: Ptr, k: Keys, group: bool, init: Init)
    requires next > 0
    ensures var c := NewContext(next, k, group, init);
            && (c.rest[0] != 0 <==> group && !init.NotReached?)
            && (c.rest[1] != 0 <==> init.Refused? || init.Ready?)
            && (c.rest[2] != 0 <==> init.NoBnCtx? || init.Refused? || init.Ready?)
            && (c.rest[3] != 0 <==> init == NoPrime(true) || init.Refused? || init.Ready?)
    ensures var c := NewContext(next, k, group, init);
            FreedByInit(next, init) == match init
                                       case NoPrime(bnCtx) => if bnCtx then [c.rest[3]] else []
                                       case NoBnCtx => [c.rest[2]]
                                       case Refused => [c.rest[1], c.rest[2], c.rest[3]]
                                       case _ => []
  {
  }

  // -- Conservation ---------------------------------------------------------------------------------

  /** The object is in a slot that an assignment overwrites, or in a context that a move overwrites. */
  ghost predicate Leaks(s: State, op: Op, p: Ptr) {
    match op
    case OpAssign(mac, slot, _) => HasSlot(s, mac, slot) && At(s, mac, slot) == p
    case OpMove(src, dst) =>
      src != dst && src in s.connections && dst in s.connections && p in Slots(s.connections[dst])
    case _ => false
  }

  lemma {:induction false} StillHeld(s: State, s': State, p: Ptr, m: string, i: nat)
    requires HasSlot(s', m, i) && At(s', m, i) == p != 0
    ensures Held(s', p)
  {
  }

  lemma {:induction false} OneOwner(s: State, p: Ptr, m: string, i: nat)
    requires Owned(s) && HasSlot(s, m, i) && At(s, m, i) == p != 0
    ensures forall n :: n in s.connections && n != m ==> p !in Slots(s.connections[n])
  {
    forall n, j | n in s.connections && n != m && 0 <= j < |Slots(s.connections[n])|
      ensures Slots(s.connections[n])[j] != p
    {
      assert HasSlot(s, n, j) && At(s, n, j) == Slots(s.connections[n])[j];
    }
  }

  lemma {:induction false} MoveConservesIff(s: State, src: string, dst: string, p: Ptr, m: string, i: nat)
    requires Owned(s) && src in s.connections && HasSlot(s, m, i) && At(s, m, i) == p != 0
    ensures var s' := Apply(s, OpMove(src, dst));
            Held(s', p) || p in s'.freed <==> !(src != dst && dst in s.connections && p in Slots(s.connections[dst]))
  {
    var s' := Apply(s, OpMove(src, dst));
    MoveMoves(s, src, dst);
    OneOwner(s, p, m, i);
    if m == src {
      StillHeld(s, s', p, dst, i);
    } else if m == dst {
      assert p in Slots(s.connections[dst]);
      forall n, j | HasSlot(s', n, j) ensures At(s', n, j) != p {
        assert At(s', n, j) in Slots(s.connections[if n == dst then src else n]);
      }
    } else {
      StillHeld(s, s', p, m, i);
    }
  }

  lemma {:induction false} AssignConservesIff(s: State, mac: string, slot: nat, ok: bool, p: Ptr, m: string, i: nat)
    requires Owned(s) && HasSlot(s, m, i) && At(s, m, i) == p != 0
    ensures var s' := Apply(s, OpAssign(mac, slot, ok));
            Held(s', p) || p in s'.freed <==> !(HasSlot(s, mac, slot) && At(s, mac, slot) == p)
  {
    var s' := Apply(s, OpAssign(mac, slot, ok));
    if HasSlot(s, mac, slot) {
      AssignStores(s, mac, slot, ok);
      if m == mac && i == slot {
        forall n, j | HasSlot(s', n, j) ensures At(s', n, j) != p {
          if n != mac || j != slot { assert At(s', n, j) == At(s, n, j); }
        }
      } else {
        StillHeld(s, s', p, m, i);
      }
    }
  }

  lemma {:induction false} TeardownConserves(s: State, mac: string, p: Ptr, i: nat)
    requires HasSlot(s, mac, i) && At(s, mac, i) == p != 0
    ensures p in Apply(s, OpTeardown(mac)).freed
  {
    TeardownFrees(s, mac);
  }

  lemma {:induction false} ClearConserves(s: State, mac: string, p: Ptr, i: nat)
    requires HasSlot(s, mac, i) && At(s, mac, i) == p != 0
    ensures var s' := Apply(s, OpClear(mac));
            Held(s', p) || p in s'.freed
  {
    ClearFrees(s, mac);
    if i < 17 {
      assert p in s.connections[mac].eph;
    } else {
      StillHeld(s, Apply(s, OpClear(mac)), p, mac, i);
    }
  }

  /** In a state with single owners, an object that a context points to is afterwards still pointed to or has been
      freed, exactly when the operation does not leak it. */
  lemma {:induction false} ConservedIff(s: State, op: Op, p: Ptr)
    requires Owned(s) && Held(s, p)
    ensures var s' := Apply(s, op);
            Held(s', p) || p in s'.freed <==> !Leaks(s, op, p)
  {
    var s' := Apply(s, op);
    var m, i :| HasSlot(s, m, i) && At(s, m, i) == p;
    assert p !in s.freed && p < s.next;
    match op
    case OpAssign(mac, slot, ok) => AssignConservesIff(s, mac, slot, ok, p, m, i);
    case OpReplace(mac, slot, ok) =>
      if HasSlot(s, mac, slot) { ReplaceStores(s, mac, slot, ok); }
      if mac != m || i != slot { StillHeld(s, s', p, m, i); }
    case OpClear(mac) =>
      if mac == m { ClearConserves(s, mac, p, i); } else { StillHeld(s, s', p, m, i); }
    case OpTeardown(mac) =>
      if mac == m { TeardownConserves(s, mac, p, i); } else { StillHeld(s, s', p, m, i); }
    case OpMove(src, dst) =>
      if src in s.connections { MoveConservesIff(s, src, dst, p, m, i); }
    case _ => StillHeld(s, s', p, m, i);
  }

  /** What an operation frees was held before, unless it is an onboarding that fails. */
  lemma {:induction false} FreesOnlyHeld(s: State, op: Op, p: Ptr)
    requires Owned(s) && !Breaks(s, op)
    ensures p in s.freed ==> p in Apply(s, op).freed
    ensures p in Apply(s, op).freed ==> p in s.freed || Held(s, p)
  {
    match op
    case OpReplace(mac, slot, ok) =>
      if HasSlot(s, mac, slot) { ReplaceStores(s, mac, slot, ok); }
    case OpClear(mac) =>
      if mac in s.connections {
        ClearFrees(s, mac);
        if p != 0 && p in s.connections[mac].eph { SlotHolds(s, mac, p); }
      }
    case OpTeardown(mac) =>
      if mac in s.connections {
        TeardownFrees(s, mac);
        if p != 0 && p in Slots(s.connections[mac]) { SlotHolds(s, mac, p); }
      }
    case _ =>
  }

  lemma {:induction false} SlotHolds(s: State, mac: string, p: Ptr)
    requires mac in s.connections && p in Slots(s.connections[mac]) && p != 0
    ensures Held(s, p)
  {
    var i :| 0 <= i < |Slots(s.connections[mac])| && Slots(s.connections[mac])[i] == p;
    assert HasSlot(s, mac, i) && At(s, mac, i) == p;
  }

  ghost predicate NoneLeaks(ops: seq<Op>) {
    forall k, p :: 0 <= k < |ops| && Held(Run(ops[..k]), p) ==> !Leaks(Run(ops[..k]), ops[k], p)
  }

  /** The object was held at some moment up to step k. */
  ghost predicate EverHeld(ops: seq<Op>, k: nat, p: Ptr)
    requires k <= |ops|
  {
    exists j :: 0 <= j <= k && Held(Run(ops[..j]), p)
  }

  lemma {:induction false} HeldOrFreed(ops: seq<Op>, k: nat, p: Ptr)
    requires NoneBreaks(ops) && NoneLeaks(ops) && k <= |ops|
    ensures EverHeld(ops, k, p) <==> Held(Run(ops[..k]), p) || p in Run(ops[..k]).freed
  {
    if k == 0 {
      assert Run(ops[..0]) == State(map[], [], 1);
    } else {
      var s, op := Run(ops[..k - 1]), ops[k - 1];
      HeldOrFreed(ops, k - 1, p);
      RunSnoc(ops, k - 1);
      OwnedUpTo(ops, k - 1);
      assert !BreaksAt(ops, k - 1) && (Held(s, p) ==> !Leaks(s, op, p));
      StepConserves(s, op, p);
      EverHeldSnoc(ops, k, p);
    }
  }

  lemma {:induction false} StepConserves(s: State, op: Op, p: Ptr)
    requires Owned(s) && !Breaks(s, op) && (Held(s, p) ==> !Leaks(s, op, p))
    ensures Held(s, p) || p in s.freed ==> Held(Apply(s, op), p) || p in Apply(s, op).freed
    ensures p in Apply(s, op).freed ==> Held(s, p) || p in s.freed
  {
    FreesOnlyHeld(s, op, p);
    if Held(s, p) { ConservedIff(s, op, p); }
  }

  lemma {:induction false} EverHeldSnoc(ops: seq<Op>, k: nat, p: Ptr)
    requires 0 < k <= |ops|
    ensures EverHeld(ops, k, p) <==> EverHeld(ops, k - 1, p) || Held(Run(ops[..k]), p)
  {
  }

  /** Conservation.  In every run in which no step breaks ownership or leaks, the objects freed once the destructor has
      run are exactly those that some context ever pointed to, each of them once. */
  lemma {:induction false} FreedExactlyOnce(ops: seq<Op>, order: seq<string>)
    requires NoneBreaks(ops) && NoneLeaks(ops) && IsOrder(order, Run(ops))
    ensures var freed := Destroy(Run(ops), order).freed;
            NoDup(freed) && forall p :: p in freed <==> EverHeld(ops, |ops|, p)
  {
    var s := Run(ops);
    NoDoubleFree(ops);
    DestroyFrees(s, order, |order|);
    assert order[..|order|] == order && ops[..|ops|] == ops;
    forall p ensures p in Destroy(s, order).freed <==> EverHeld(ops, |ops|, p) {
      HeldOrFreed(ops, |ops|, p);
      EarlierIffHeld(s, order, p);
    }
  }

  lemma {:induction false} EarlierIffHeld(s: State, order: seq<string>, p: Ptr)
    requires IsOrder(order, s)
    ensures Earlier(s, order, |order|, p) <==> Held(s, p)
  {
    if Earlier(s, order, |order|, p) {
      var a :| 0 <= a < |order| && p in Slots(s.connections[order[a]]);
      assert order[a] in order;
      SlotHolds(s, order[a], p);
    }
    if Held(s, p) {
      var m, i :| HasSlot(s, m, i) && At(s, m, i) == p;
      assert m in order;
    }
  }
}
