/** The configurator object that holds the connection contexts. */
module Configurator {
  import opened Ownership

  /** Boot data and the rest of a new context are made independently. */
  lemma {:induction false} AsBuilt(next: Ptr, k: Keys, group: bool, init: Init, c: Context)
    requires c.boot == [New(next, 0, k.respPub), New(next, 1, k.initPub), New(next, 2, k.respPriv),
                        New(next, 3, k.initPriv), k.responder, k.initiator]
    requires init.NotReached? ==> c.eph == Nulls(EPH) && c.rest == Nulls(REST)
    requires !init.NotReached? ==>
               var n := NewContext(next, Keys(0, 0, false, false, false, false), group, init);
               c.eph == n.eph && c.rest == n.rest
    ensures c == NewContext(next, k, group, init)
  {
    if init.NotReached? { assert NewContext(next, k, group, init).eph == Nulls(EPH); }
  }

  class ConnectionTable {
    var connections: map<string, Context>
    var freed: seq<Ptr>
    var next: Ptr

    ghost function View(): State
      reads this
    {
      State(connections, freed, next)
    }

    constructor ()
      ensures View() == Run([])
    {
      connections, freed, next := map[], [], 1;
    }

    /** The `if (ctx->x) free(ctx->x)` statements, in order. */
    method FreeEach(slots: seq<Ptr>)
      modifies this`freed
      ensures freed == old(freed) + NonNull(slots)
    {
      for i := 0 to |slots|
        invariant freed == old(freed) + NonNull(slots[..i])
      {
        assert slots[..i + 1][..i] == slots[..i];
        if slots[i] != 0 {
          freed := freed + [slots[i]];
        }
      }
      assert slots[..|slots|] == slots;
    }

    method FreeEphemeralContext(mac: string)
      requires mac in connections
      modifies this`connections, this`freed
      ensures View() == FreeEphemeral(old(View()), mac)
      ensures forall i :: 0 <= i < 17 ==> connections[mac].eph[i] == 0
      ensures forall p :: p in freed <==> p in old(freed) || (p != 0 && p in old(connections)[mac].eph)
    {
      NonNullElements(connections[mac].eph);
      FreeEach(connections[mac].eph);
      connections := connections[mac := connections[mac].(eph := Nulls(EPH))];
    }

    method FreeConnectionContext(mac: string)
      requires mac in connections
      modifies this`connections, this`freed
      ensures View() == FreeConnection(old(View()), mac)
      ensures connections == old(connections)[mac := RawContext(Nulls(17), Nulls(6), Nulls(4))]
      ensures forall p :: p in freed <==> p in old(freed) || (p != 0 && p in Slots(old(connections)[mac]))
    {
      NonNullElements(connections[mac].boot);
      NonNullElements(connections[mac].rest);
      FreeEphemeralContext(mac);
      FreeEach(connections[mac].boot);
      FreeEach(connections[mac].rest);
      connections := connections[mac := ZERO];
    }

    method ClearConnEphCtx(mac: string)
      modifies this`connections, this`freed
      ensures View() == ClearEphemeral(old(View()), mac)
    {
      if mac !in connections {
        return;
      }
      FreeEphemeralContext(mac);
    }

    method TeardownConnection(mac: string)
      modifies this`connections, this`freed
      ensures View() == Teardown(old(View()), mac)
    {
      if mac !in connections {
        return;
      }
      FreeConnectionContext(mac);
      FreeEphemeralContext(mac);
    }

    /** onboard_enrollee; the parameters after the keys are what the crypto library answers. */
    method OnboardEnrollee(mac: string, keys: Keys, group: bool, init: Init) returns (ok: bool)
      requires keys.responder < next && keys.initiator < next
      modifies this`connections, this`freed, this`next
      ensures View() == Onboard(old(View()), mac, keys, group, init)
      ensures ok <==> mac !in old(connections) && keys.responder != 0 && init.Ready?
      ensures mac in old(connections) || keys.responder == 0 ==> View() == old(View())
    {
      if keys.responder == 0 {
        return false;
      }
      if mac in connections {
        return false;
      }
      var c := ZERO;
      c := c.(boot := [New(next, 0, keys.respPub), New(next, 1, keys.initPub), New(next, 2, keys.respPriv),
                       New(next, 3, keys.initPriv), keys.responder, keys.initiator]);
      if init.NotReached? {
        ok := false;
      } else {
        c, ok := InitConnectionContext(c, group, init);
      }
      AsBuilt(next, keys, group, init, c);
      connections := connections[mac := c];
      next := next + 12;
    }

    /** init_connection_ctx: every failure frees what was allocated and leaves it in the context. */
    method InitConnectionContext(c: Context, group: bool, init: Init) returns (r: Context, ok: bool)
      requires c.eph == Nulls(EPH) && c.rest == Nulls(REST) && !init.NotReached?
      modifies this`freed
      ensures freed == old(freed) + FreedByInit(next, init) && (ok <==> init.Ready?)
      ensures var n := NewContext(next, Keys(0, 0, false, false, false, false), group, init);
              r == c.(rest := n.rest, eph := n.eph)
    {
      var prime := New(next, 6, !init.NoPrime?);
      var bnCtx := New(next, 7, !init.NoBnCtx? && (init.NoPrime? ==> init.bnCtx));
      r := c.(rest := [New(next, 4, group), 0, prime, bnCtx]);
      if prime == 0 || bnCtx == 0 {
        FreeEach([prime]);
        FreeEach([bnCtx]);
        NonNullOne(prime);
        NonNullOne(bnCtx);
        return r, false;
      }
      r := r.(rest := r.rest[1 := next + 5]);
      if init.Refused? {
        freed := freed + [r.rest[1]] + [r.rest[2]] + [r.rest[3]];
        return r, false;
      }
      r := r.(eph := r.eph[8 := next + 8][9 := next + 9][10 := next + 10][11 := next + 11]);
      return r, true;
    }

    /** The destructor's loop over the map. */
    method DestroyAll(order: seq<string>)
      requires IsOrder(order, View())
      modifies this`connections, this`freed
      ensures View() == Destroy(old(View()), order)
      ensures NoDup(freed) <==> NoDup(old(freed)) && Unaliased(old(View())) && NoneFreed(old(View()))
    {
      ghost var s := View();
      assert order[..0] == [];
      for i := 0 to |order|
        invariant View() == Destroy(s, order[..i])
      {
        assert order[..i + 1][..i] == order[..i] && order[i] in order;
        FreeConnectionContext(order[i]);
      }
      assert order[..|order|] == order;
      DestructorIsSafeIff(s, order);
    }
  }
}
