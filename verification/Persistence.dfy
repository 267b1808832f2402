/** Configuration of the radio table with a persistent backend and with the no-op one. */
module Persistence {

  datatype RadioId = RadioId(net: string, dev: string, ruid: string)

  /** dm_radio_t, its fields grouped by how they are treated: `core` is compared by operator== and copied by
      operator=, `extra` (such as the number of BSSs) only by the memcpy of an update, and `temp` is the radio
      temperature, which neither of them carries over. */
  datatype Radio = Radio(mac: string, id: RadioId, core: seq<int>, extra: seq<int>, temp: int)

  /** A radio and the data model, named by network and device, in whose array it lives. */
  datatype Slot = Slot(net: string, dev: string, radio: Radio)

  type Memory = map<string, Slot>

  const EM_MAX_BANDS: nat := 3

  datatype Op = Insert | Update | NoOp

  /** What the two backends share and what only the persistent one has: the keys of the table's rows. */
  datatype Store = Store(memory: Memory, rows: set<string>)

  /** What the memory operations are given: the data models that exist, and operator== of dm_radio_t.  Nothing is
      assumed about the latter, which sums strncmp results and can call different radios equal. */
  datatype World = World(models: set<(string, string)>, same: (Radio, Radio) -> bool)

  function RowKey(id: RadioId): string { id.net + "@" + id.dev + "@" + id.ruid }

  /** search_db compares as many characters as the searched key has. */
  predicate HasRow(rows: set<string>, key: string) { exists k :: k in rows && key <= k }

  /** entry_exists_in_table */
  predicate EntryExists(persistent: bool, rows: set<string>, key: string) { !persistent || HasRow(rows, key) }

  /** get_dm_orch_type */
  function OrchType(w: World, persistent: bool, s: Store, r: Radio): Op {
    if r.mac !in s.memory then Insert
    else if !EntryExists(persistent, s.rows, RowKey(r.id)) then Insert
    else if w.same(s.memory[r.mac].radio, r) then NoOp
    else Update
  }

  /** prepare_db_operation and update_db */
  function UpdateDb(persistent: bool, rows: set<string>, op: Op, r: Radio): set<string> {
    var prepared := if persistent then op else NoOp;
    if prepared == Insert then rows + {RowKey(r.id)} else rows
  }

  /** dm_radio_t::operator= */
  function Assign(prior: Radio, r: Radio): Radio { prior.(mac := r.mac, id := r.id, core := r.core) }

  const BLANK := Radio("", RadioId("", "", ""), [], [], 0)

  function Radios(memory: Memory, net: string, dev: string): set<string> {
    set m | m in memory && memory[m].net == net && memory[m].dev == dev
  }

  /** put_radio */
  function Put(w: World, memory: Memory, r: Radio): Memory {
    if (r.id.net, r.id.dev) !in w.models then memory
    else if r.mac in memory then memory[r.mac := memory[r.mac].(radio := Assign(memory[r.mac].radio, r))]
    else if |Radios(memory, r.id.net, r.id.dev)| >= EM_MAX_BANDS then memory
    else memory[r.mac := Slot(r.id.net, r.id.dev, Assign(BLANK, r))]
  }

  /** update_list */
  function UpdateList(w: World, memory: Memory, r: Radio, op: Op): Memory
    requires op == Update ==> r.mac in memory
  {
    match op
    case Insert => Put(w, memory, r)
    case Update => memory[r.mac := memory[r.mac].(radio := r.(temp := memory[r.mac].radio.temp))]
    case NoOp => memory
  }

  /** set_config for one radio */
  function SetConfig(w: World, persistent: bool, s: Store, r: Radio): Store {
    var op := OrchType(w, persistent, s, r);
    Store(UpdateList(w, s.memory, r, op), UpdateDb(persistent, s.rows, op, r))
  }

  function SetAll(w: World, persistent: bool, s: Store, rs: seq<Radio>): Store {
    if rs == [] then s else SetConfig(w, persistent, SetAll(w, persistent, s, rs[..|rs| - 1]), rs[|rs| - 1])
  }

  /** dm_radio_list_t */
  class RadioList {
    const world: World
    const persistent: bool
    var memory: Memory
    var rows: set<string>

    ghost function View(): Store
      reads this
    {
      Store(memory, rows)
    }

    constructor (world: World, persistent: bool)
      ensures View() == Store(map[], {}) && this.world == world && this.persistent == persistent
    {
      this.world, this.persistent, memory, rows := world, persistent, map[], {};
    }

    method GetOrchType(r: Radio) returns (op: Op)
      ensures op == OrchType(world, persistent, View(), r)
    {
      if r.mac in memory {
        var exists_ := !persistent;
        if persistent {
          exists_ := exists k :: k in rows && RowKey(r.id) <= k;
        }
        if !exists_ {
          return Insert;
        }
        if world.same(memory[r.mac].radio, r) {
          return NoOp;
        }
        return Update;
      }
      return Insert;
    }

    method SetConfigOne(r: Radio)
      modifies this`memory, this`rows
      ensures View() == SetConfig(world, persistent, old(View()), r)
      ensures forall m :: m != r.mac ==> (m in memory <==> m in old(memory))
      ensures forall m :: m != r.mac && m in memory ==> memory[m] == old(memory)[m]
      ensures var model := (r.id.net, r.id.dev) in world.models;
              var row := !persistent || exists k :: k in old(rows) && RowKey(r.id) <= k;
              if r.mac !in old(memory) then
                var was := old(memory);
                var bands := set m | m in was && was[m].net == r.id.net && was[m].dev == r.id.dev;
                && (r.mac in memory <==> model && |bands| < 3)
                && (r.mac in memory ==> memory[r.mac] == Slot(r.id.net, r.id.dev, Radio(r.mac, r.id, r.core, [], 0)))
              else
                var was := old(memory)[r.mac];
                && r.mac in memory && memory[r.mac].net == was.net && memory[r.mac].dev == was.dev
                && memory[r.mac].radio
                   == if row then if world.same(was.radio, r) then was.radio
                                  else Radio(r.mac, r.id, r.core, r.extra, was.radio.temp)
                      else if model then Radio(r.mac, r.id, r.core, was.radio.extra, was.radio.temp) else was.radio
      ensures rows == if persistent && (r.mac !in old(memory) || !exists k :: k in old(rows) && RowKey(r.id) <= k)
                      then old(rows) + {r.id.net + "@" + r.id.dev + "@" + r.id.ruid} else old(rows)
    {
      var op := GetOrchType(r);
      if persistent && op == Insert {
        rows := rows + {RowKey(r.id)};
      }
      if op == Insert {
        memory := Put(world, memory, r);
      } else if op == Update {
        var temp := memory[r.mac].radio.temp;
        memory := memory[r.mac := memory[r.mac].(radio := r)];
        memory := memory[r.mac := memory[r.mac].(radio := memory[r.mac].radio.(temp := temp))];
      }
    }

    /** set_config for an array of radios */
    method SetConfigArray(rs: seq<Radio>)
      modifies this`memory, this`rows
      ensures View() == SetAll(world, persistent, old(View()), rs)
      ensures forall m :: (forall r :: r in rs ==> r.mac != m) ==> SameSlot(memory, old(memory), m)
      ensures forall i :: 0 <= i < |rs| && (forall j :: i < j < |rs| ==> rs[j].mac != rs[i].mac) ==>
                (Holds(memory, rs[i]) <==>
                 TakesHold(world, persistent, SetAll(world, persistent, old(View()), rs[..i]), rs[i]))
    {
      for i := 0 to |rs|
        invariant View() == SetAll(world, persistent, old(View()), rs[..i])
      {
        assert rs[..i + 1][..i] == rs[..i];
        SetConfigOne(rs[i]);
      }
      assert rs[..|rs|] == rs;
      forall m | forall r :: r in rs ==> r.mac != m ensures SameSlot(memory, old(memory), m) {
        Untouched(world, persistent, old(View()), rs, m);
      }
      forall i | 0 <= i < |rs| && forall j :: i < j < |rs| ==> rs[j].mac != rs[i].mac
        ensures Holds(memory, rs[i]) <==>
                TakesHold(world, persistent, SetAll(world, persistent, old(View()), rs[..i]), rs[i])
      {
        LastConfigurationHolds(world, persistent, old(View()), rs, i);
      }
    }
  }

  // -- What memory holds ----------------------------------------------------------------------------

  /** Memory holds the identity and configuration that r gives its radio. */
  predicate Holds(memory: Memory, r: Radio) {
    r.mac in memory && var x := memory[r.mac].radio; x.mac == r.mac && x.id == r.id && x.core == r.core
  }

  /** The configuration takes hold: a new radio has a data model with a free band, and a known one is not called equal
      to what is stored, or, where its row is missing, has a data model; unless memory held it before. */
  predicate TakesHold(w: World, persistent: bool, s: Store, r: Radio) {
    var model := (r.id.net, r.id.dev) in w.models;
    if r.mac !in s.memory then
      model && |set m | m in s.memory && s.memory[m].net == r.id.net && s.memory[m].dev == r.id.dev| < 3
    else
      Holds(s.memory, r) || if persistent && !HasRow(s.rows, RowKey(r.id)) then model
                            else !w.same(s.memory[r.mac].radio, r)
  }

  lemma {:induction false} HoldsIff(w: World, persistent: bool, s: Store, r: Radio)
    ensures Holds(SetConfig(w, persistent, s, r).memory, r) <==> TakesHold(w, persistent, s, r)
    ensures forall m :: m != r.mac ==> SameSlot(SetConfig(w, persistent, s, r).memory, s.memory, m)
  {
    assert Radios(s.memory, r.id.net, r.id.dev)
        == set m | m in s.memory && s.memory[m].net == r.id.net && s.memory[m].dev == r.id.dev;
  }

  predicate SameSlot(memory: Memory, memory': Memory, m: string) {
    (m in memory <==> m in memory') && (m in memory ==> memory[m] == memory'[m])
  }

  /** A radio without a configuration in the sequence keeps its slot. */
  lemma {:induction false} Untouched(w: World, persistent: bool, s: Store, rs: seq<Radio>, m: string)
    requires forall r :: r in rs ==> r.mac != m
    ensures SameSlot(SetAll(w, persistent, s, rs).memory, s.memory, m)
  {
    if rs != [] {
      var k := |rs| - 1;
      assert rs[k] in rs && forall r :: r in rs[..k] ==> r in rs;
      Untouched(w, persistent, s, rs[..k], m);
      HoldsIff(w, persistent, SetAll(w, persistent, s, rs[..k]), rs[k]);
    }
  }

  lemma {:induction false} SetAllConcat(w: World, persistent: bool, s: Store, xs: seq<Radio>, ys: seq<Radio>)
    ensures SetAll(w, persistent, s, xs + ys) == SetAll(w, persistent, SetAll(w, persistent, s, xs), ys)
  {
    if ys == [] {
      assert xs + ys == xs;
    } else {
      var k := |ys| - 1;
      assert (xs + ys)[..|xs + ys| - 1] == xs + ys[..k];
      SetAllConcat(w, persistent, s, xs, ys[..k]);
    }
  }

  /** What memory holds after a sequence of configurations, for each radio that has one: the last of them, exactly when
      that one takes hold at its moment. */
  lemma {:induction false} LastConfigurationHolds(w: World, persistent: bool, s: Store, rs: seq<Radio>, i: nat)
    requires i < |rs| && forall j :: i < j < |rs| ==> rs[j].mac != rs[i].mac
    ensures Holds(SetAll(w, persistent, s, rs).memory, rs[i])
            <==> TakesHold(w, persistent, SetAll(w, persistent, s, rs[..i]), rs[i])
    ensures SameSlot(SetAll(w, persistent, s, rs).memory, SetAll(w, persistent, s, rs[..i + 1]).memory, rs[i].mac)
  {
    var before := SetAll(w, persistent, s, rs[..i]);
    var after := SetAll(w, persistent, s, rs[..i + 1]);
    SetAllSnoc(w, persistent, s, rs, i);
    HoldsIff(w, persistent, before, rs[i]);
    assert rs == rs[..i + 1] + rs[i + 1..];
    SetAllConcat(w, persistent, s, rs[..i + 1], rs[i + 1..]);
    Untouched(w, persistent, after, rs[i + 1..], rs[i].mac);
  }

  // -- Agreement ------------------------------------------------------------------------------------

  /** Every radio in memory has its row in the table. */
  ghost predicate Agrees(s: Store) {
    forall m :: m in s.memory ==> HasRow(s.rows, RowKey(s.memory[m].radio.id))
  }

  lemma {:induction false} RowsGrow(rows: set<string>, rows': set<string>, key: string)
    requires rows <= rows' && HasRow(rows, key)
    ensures HasRow(rows', key)
  {
  }

  /** Whatever is configured, the persistent backend keeps the table in agreement with memory. */
  lemma {:induction false} AgreementKept(w: World, s: Store, r: Radio)
    requires Agrees(s)
    ensures Agrees(SetConfig(w, true, s, r))
  {
    var s' := SetConfig(w, true, s, r);
    assert RowKey(r.id) in s'.rows || HasRow(s.rows, RowKey(r.id)) || s'.memory == s.memory;
    forall m | m in s'.memory ensures HasRow(s'.rows, RowKey(s'.memory[m].radio.id)) {
      if m in s.memory && s'.memory[m] == s.memory[m] {
        RowsGrow(s.rows, s'.rows, RowKey(s.memory[m].radio.id));
      } else {
        assert m == r.mac && s'.memory[m].radio.id == r.id;
        if RowKey(r.id) in s'.rows { assert RowKey(r.id) <= RowKey(r.id); }
      }
    }
  }

  /** The radio is known by its MAC but the table has no row for the identity it is configured with; the persistent
      backend then takes the insertion path and the other one does not. */
  predicate Orphan(s: Store, r: Radio) { r.mac in s.memory && !HasRow(s.rows, RowKey(r.id)) }

  /** What that costs: an insertion copies no `extra` fields, needs the data model to exist, and does not ask whether
      anything changed. */
  predicate Diverges(w: World, s: Store, r: Radio) {
    Orphan(s, r)
    && var prior := s.memory[r.mac].radio;
       var known := (r.id.net, r.id.dev) in w.models;
       if w.same(prior, r) then known && (r.mac != prior.mac || r.id != prior.id || r.core != prior.core)
       else if known then r.extra != prior.extra
       else r.mac != prior.mac || r.id != prior.id || r.core != prior.core || r.extra != prior.extra
  }

  /** One configuration step leaves the same memory with both backends exactly when the step does not diverge. */
  lemma {:induction false} BackendsAgreeIff(w: World, s: Store, r: Radio)
    ensures SetConfig(w, true, s, r).memory == SetConfig(w, false, s, r).memory <==> !Diverges(w, s, r)
  {
    if Orphan(s, r) {
      var slot := s.memory[r.mac];
      var p, n := SetConfig(w, true, s, r).memory, SetConfig(w, false, s, r).memory;
      assert p[r.mac].net == n[r.mac].net && p[r.mac].dev == n[r.mac].dev;
      if p[r.mac].radio == n[r.mac].radio { assert p == n; }
      assert s.memory[r.mac := slot] == s.memory;
    }
  }

  // -- Runs -----------------------------------------------------------------------------------------

  lemma {:induction false} SetAllSnoc(w: World, persistent: bool, s: Store, rs: seq<Radio>, i: nat)
    requires i < |rs|
    ensures SetAll(w, persistent, s, rs[..i + 1]) == SetConfig(w, persistent, SetAll(w, persistent, s, rs[..i]), rs[i])
  {
    assert rs[..i + 1][..i] == rs[..i];
  }

  /** Both backends hold the same memory after the first k configurations. */
  ghost predicate SameMemory(w: World, s: Store, rs: seq<Radio>, k: nat)
    requires k <= |rs|
  {
    SetAll(w, true, s, rs[..k]).memory == SetAll(w, false, s, rs[..k]).memory
  }

  ghost predicate DivergesAt(w: World, s: Store, rs: seq<Radio>, i: nat)
    requires i < |rs|
  {
    Diverges(w, SetAll(w, true, s, rs[..i]), rs[i])
  }

  /** From equal memories, one more configuration keeps them equal exactly when it does not diverge. */
  lemma {:induction false} StaysSameIff(w: World, s: Store, rs: seq<Radio>, i: nat)
    requires i < |rs| && SameMemory(w, s, rs, i)
    ensures SameMemory(w, s, rs, i + 1) <==> !DivergesAt(w, s, rs, i)
  {
    var p, n := SetAll(w, true, s, rs[..i]), SetAll(w, false, s, rs[..i]);
    SetAllSnoc(w, true, s, rs, i);
    SetAllSnoc(w, false, s, rs, i);
    BackendsAgreeIff(w, p, rs[i]);
    MemoryIgnoresRows(w, p, n, rs[i]);
  }

  /** Backend independence.  From any memory and any table, every sequence of configurations leaves the same memory with
      both backends, after each of its configurations, exactly when none of them diverges. */
  lemma {:induction false} BackendIndependenceIff(w: World, s: Store, rs: seq<Radio>)
    ensures (forall k :: 0 <= k <= |rs| ==> SameMemory(w, s, rs, k))
            <==> (forall i :: 0 <= i < |rs| ==> !DivergesAt(w, s, rs, i))
  {
    if forall k :: 0 <= k <= |rs| ==> SameMemory(w, s, rs, k) {
      forall i | 0 <= i < |rs| ensures !DivergesAt(w, s, rs, i) {
        assert SameMemory(w, s, rs, i) && SameMemory(w, s, rs, i + 1);
        StaysSameIff(w, s, rs, i);
      }
    }
    if forall i :: 0 <= i < |rs| ==> !DivergesAt(w, s, rs, i) {
      forall k | 0 <= k <= |rs| ensures SameMemory(w, s, rs, k) {
        SameUpTo(w, s, rs, k);
      }
    }
  }

  lemma {:induction false} SameUpTo(w: World, s: Store, rs: seq<Radio>, k: nat)
    requires k <= |rs| && forall i :: 0 <= i < k ==> !DivergesAt(w, s, rs, i)
    ensures SameMemory(w, s, rs, k)
  {
    if k > 0 {
      SameUpTo(w, s, rs, k - 1);
      StaysSameIff(w, s, rs, k - 1);
    }
  }

  /** The configuration does not give a radio that memory knows another identity. */
  predicate KeepsIdentity(memory: Memory, r: Radio) { r.mac in memory ==> memory[r.mac].radio.id == r.id }

  ghost predicate AllKeepIdentity(w: World, s: Store, rs: seq<Radio>) {
    forall i :: 0 <= i < |rs| ==> KeepsIdentity(SetAll(w, true, s, rs[..i]).memory, rs[i])
  }

  /** In particular, from a table in agreement with memory, a sequence that does not re-identify a known radio. */
  lemma {:induction false} BackendIndependence(w: World, s: Store, rs: seq<Radio>)
    requires Agrees(s) && AllKeepIdentity(w, s, rs)
    ensures SetAll(w, true, s, rs).memory == SetAll(w, false, s, rs).memory && Agrees(SetAll(w, true, s, rs))
  {
    forall i | 0 <= i < |rs| ensures !DivergesAt(w, s, rs, i) {
      AgreementAlways(w, s, rs[..i]);
      assert KeepsIdentity(SetAll(w, true, s, rs[..i]).memory, rs[i]);
    }
    BackendIndependenceIff(w, s, rs);
    assert SameMemory(w, s, rs, |rs|) && rs[..|rs|] == rs;
    AgreementAlways(w, s, rs);
  }

  /** Without persistence the rows are never looked at. */
  lemma {:induction false} MemoryIgnoresRows(w: World, s: Store, s': Store, r: Radio)
    requires s.memory == s'.memory
    ensures SetConfig(w, false, s, r).memory == SetConfig(w, false, s', r).memory
  {
  }

  /** Agreement is kept even by configurations that re-identify radios. */
  lemma {:induction false} AgreementAlways(w: World, s: Store, rs: seq<Radio>)
    requires Agrees(s)
    ensures Agrees(SetAll(w, true, s, rs))
  {
    if rs != [] {
      AgreementAlways(w, s, rs[..|rs| - 1]);
      AgreementKept(w, SetAll(w, true, s, rs[..|rs| - 1]), rs[|rs| - 1]);
    }
  }

  /** Two configurations, from empty tables, after which the backends disagree: the second moves a radio to another
      device, and the persistent backend keeps the number of BSSs it had before. */
  lemma {:induction false} ReidentifiedRadioDiverges(w: World)
    requires w.models == {("net", "dev1"), ("net", "dev2")}
      && forall x: Radio, y: Radio :: x.id != y.id ==> !w.same(x, y)
    ensures var r1 := Radio("mac", RadioId("net", "dev1", "r"), [1], [2], 0);
            var r2 := Radio("mac", RadioId("net", "dev2", "r"), [1], [3], 0);
            SetAll(w, true, Store(map[], {}), [r1, r2]).memory != SetAll(w, false, Store(map[], {}), [r1, r2]).memory
  {
    var r1 := Radio("mac", RadioId("net", "dev1", "r"), [1], [2], 0);
    var r2 := Radio("mac", RadioId("net", "dev2", "r"), [1], [3], 0);
    var s0 := Store(map[], {});
    assert [r1, r2][..1] == [r1] && [r1][..0] == [];
    assert SetAll(w, true, s0, [r1]) == SetConfig(w, true, s0, r1)
        && SetAll(w, false, s0, [r1]) == SetConfig(w, false, s0, r1);
    assert Radios(map[], "net", "dev1") == {};
    var p, n := SetConfig(w, true, s0, r1), SetConfig(w, false, s0, r1);
    assert p.rows == {RowKey(r1.id)};
    assert RowKey(r1.id)[7] == '1' && RowKey(r2.id)[7] == '2';
    MemoryIgnoresRows(w, p, n, r2);
    BackendsAgreeIff(w, p, r2);
  }
}
