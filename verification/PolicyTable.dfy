/** Configuration of the policy table, whose memory does not depend on the backend at all. */
module PolicyTable {
  import Persistence

  /** dm_policy_t: the key is made of network, device, radio and type, in memory and in the table alike; the values are
      copied as a whole by operator= and by updates. */
  datatype Policy = Policy(key: string, values: seq<int>)

  type Memory = map<string, Policy>

  /** The meaning of a sequence of configurations: the last one for each key whose data model exists. */
  function Overlay(known: string -> bool, memory: Memory, ps: seq<Policy>): Memory {
    if ps == [] then memory else
    var before, p := Overlay(known, memory, ps[..|ps| - 1]), ps[|ps| - 1];
    if known(p.key) then before[p.key := p] else before
  }

  function KeysOf(ps: seq<Policy>): set<string> { set p | p in ps :: p.key }

  /** No key is the beginning of another, which the lookup by prefix would take for its row. */
  ghost predicate PrefixFree(keys: set<string>) { forall k, l :: k in keys && l in keys && k <= l ==> k == l }

  lemma {:induction false} Untouched(known: string -> bool, memory: Memory, ps: seq<Policy>, k: string)
    requires !known(k) || k !in KeysOf(ps)
    ensures var m := Overlay(known, memory, ps);
            (k in m <==> k in memory) && (k in m ==> m[k] == memory[k])
  {
    if ps != [] {
      var front, p := ps[..|ps| - 1], ps[|ps| - 1];
      assert p in ps && KeysOf(front) <= KeysOf(ps) && p.key in KeysOf(ps);
      Untouched(known, memory, front, k);
    }
  }

  lemma {:induction false} LastWins(known: string -> bool, memory: Memory, ps: seq<Policy>, i: nat)
    requires i < |ps| && known(ps[i].key) && forall j :: i < j < |ps| ==> ps[j].key != ps[i].key
    ensures var m := Overlay(known, memory, ps);
            ps[i].key in m && m[ps[i].key] == ps[i]
  {
    if i < |ps| - 1 { LastWins(known, memory, ps[..|ps| - 1], i); }
  }

  /** Memory holds the last policy of the sequence for each key whose data model exists, and is otherwise as it was. */
  ghost predicate IsOverlay(known: string -> bool, memory: Memory, ps: seq<Policy>, memory': Memory) {
    && (forall i :: 0 <= i < |ps| && (forall j :: i < j < |ps| ==> ps[j].key != ps[i].key) && known(ps[i].key) ==>
          ps[i].key in memory' && memory'[ps[i].key] == ps[i])
    && forall k :: !known(k) || k !in KeysOf(ps) ==>
         (k in memory' <==> k in memory) && (k in memory' ==> memory'[k] == memory[k])
  }

  lemma {:induction false} OverlayMeans(known: string -> bool, memory: Memory, ps: seq<Policy>)
    ensures IsOverlay(known, memory, ps, Overlay(known, memory, ps))
  {
    var m := Overlay(known, memory, ps);
    forall k | !known(k) || k !in KeysOf(ps) ensures (k in m <==> k in memory) && (k in m ==> m[k] == memory[k]) {
      Untouched(known, memory, ps, k);
    }
    forall i | 0 <= i < |ps| && (forall j :: i < j < |ps| ==> ps[j].key != ps[i].key) && known(ps[i].key)
      ensures ps[i].key in m && m[ps[i].key] == ps[i]
    {
      LastWins(known, memory, ps, i);
    }
  }

  lemma {:induction false} OwnRows(all: set<string>, rows: set<string>, ps: seq<Policy>)
    requires PrefixFree(all) && rows <= all && KeysOf(ps) <= all
    requires forall p :: p in ps ==> Persistence.HasRow(rows, p.key)
    ensures forall p :: p in ps ==> p.key in rows
  {
    forall p | p in ps ensures p.key in rows {
      assert Persistence.HasRow(rows, p.key) && p.key in KeysOf(ps);
    }
  }

  class PolicyList {
    const known: string -> bool
    const persistent: bool
    var memory: Memory
    var rows: set<string>

    constructor (known: string -> bool, persistent: bool, rows: set<string>)
      ensures this.known == known && this.persistent == persistent && this.rows == rows && memory == map[]
    {
      this.known, this.persistent, this.rows, memory := known, persistent, rows, map[];
    }

    /** entry_exists_in_table */
    method EntryExists(key: string) returns (r: bool)
      ensures r <==> Persistence.EntryExists(persistent, rows, key)
    {
      if !persistent {
        return true;
      }
      return exists k :: k in rows && key <= k;
    }

    /** get_dm_orch_type: for a policy that is not in memory the table is asked too. */
    method GetOrchType(p: Policy) returns (op: Persistence.Op)
      ensures op != Persistence.NoOp
      ensures op == Persistence.Insert <==> !Persistence.EntryExists(persistent, rows, p.key)
    {
      var present := EntryExists(p.key);
      if known(p.key) && p.key in memory {
        if !present {
          return Persistence.Insert;
        }
        return Persistence.Update;
      }
      if present {
        return Persistence.Update;
      }
      return Persistence.Insert;
    }

    /** set_config: one policy.  Whatever the backend and its rows, memory takes the policy if its data model exists. */
    method SetConfigOne(p: Policy)
      modifies this`memory, this`rows
      ensures memory == if known(p.key) then old(memory)[p.key := p] else old(memory)
      ensures rows == old(rows) + if Persistence.EntryExists(persistent, old(rows), p.key) then {} else {p.key}
    {
      var op := GetOrchType(p);
      if persistent && op == Persistence.Insert {
        rows := rows + {p.key};
      }
      if op == Persistence.Insert {
        PutPolicy(p);
      } else {
        if !(known(p.key) && p.key in memory) {
          PutPolicy(p);
        } else {
          memory := memory[p.key := memory[p.key].(values := p.values, key := p.key)];
        }
      }
    }

    method PutPolicy(p: Policy)
      modifies this`memory
      ensures memory == if known(p.key) then old(memory)[p.key := p] else old(memory)
    {
      if !known(p.key) {
        return;
      }
      memory := memory[p.key := p];
    }

    /** set_config: an array of policies.  Memory becomes the overlay of the array on what it was, for both kinds of
        backend and for every table.  A persistent table then has, for every policy of the array, a row whose key starts
        with the policy's: its own row, wherever no key is the beginning of another. */
    method SetConfigArray(ps: seq<Policy>)
      modifies this`memory, this`rows
      ensures IsOverlay(known, old(memory), ps, memory)
      ensures old(rows) <= rows && (!persistent ==> rows == old(rows))
      ensures forall p :: p in ps ==> Persistence.EntryExists(persistent, rows, p.key)
      ensures persistent && PrefixFree(old(rows) + KeysOf(ps)) ==> forall p :: p in ps ==> p.key in rows
    {
      OverlayMeans(known, memory, ps);
      SetEach(ps);
      if persistent && PrefixFree(old(rows) + KeysOf(ps)) { OwnRows(old(rows) + KeysOf(ps), rows, ps); }
    }

    /** Its loop. */
    method SetEach(ps: seq<Policy>)
      modifies this`memory, this`rows
      ensures memory == Overlay(known, old(memory), ps)
      ensures old(rows) <= rows <= old(rows) + KeysOf(ps) && (!persistent ==> rows == old(rows))
      ensures forall p :: p in ps ==> Persistence.EntryExists(persistent, rows, p.key)
    {
      for i := 0 to |ps|
        invariant rows <= old(rows) + KeysOf(ps)
        invariant memory == Overlay(known, old(memory), ps[..i])
        invariant old(rows) <= rows && (!persistent ==> rows == old(rows))
        invariant forall p :: p in ps[..i] ==> Persistence.EntryExists(persistent, rows, p.key)
      {
        assert ps[..i + 1][..i] == ps[..i];
        SetConfigOne(ps[i]);
        assert forall p :: p in ps[..i + 1] ==> p in ps[..i] || p == ps[i];
      }
      assert ps[..|ps|] == ps;
    }
  }
}
