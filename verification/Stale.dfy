/** Fragments that outlive their exchange: exactly which of them are harmless to the next one. */
module Stale {
  import opened Base
  import opened Fragmentation
  import opened Gas
  import opened Reassembly

  /** Every frame is a fragment of the payload or a stale one. */
  ghost predicate FromEither(inputs: seq<Input>, fs: seq<Fragment>, stale: set<Fragment>) {
    forall i :: i in inputs ==> i.frag in fs || i.frag in stale
  }

  /** From the buffer b, no arrivals of a payload's fragments and of stale ones hand on anything but the payload. */
  ghost predicate SafeWith(b: Buffer, stale: set<Fragment>, fs: seq<Fragment>) {
    forall inputs, d :: FromEither(inputs, fs, stale) && d in AloneOut(b, inputs) ==> d == Concat(fs)
  }

  ghost predicate HasId(stale: set<Fragment>, id: nat) { exists g :: g in stale && g.id == id }

  /** A stale fragment before the last position says what the payload's fragment there says; one in the last position
      does if it claims to be the last; and no stale last fragment beyond them can be reached without a gap. */
  ghost predicate Harmless(stale: set<Fragment>, fs: seq<Fragment>) {
    forall f :: f in stale ==> HarmlessOne(f, stale, fs)
  }

  ghost predicate HarmlessOne(f: Fragment, stale: set<Fragment>, fs: seq<Fragment>) {
    if f.id + 1 < |fs| then f.more && f.data == fs[f.id].data
    else if f.id + 1 == |fs| then f.more || f.data == fs[f.id].data
    else f.more || exists i :: |fs| <= i < f.id && !HasId(stale, i)
  }

  /** The fragments of a payload under a limit, and what fragments of others under the same limit look like. */
  ghost predicate Chunks(fs: seq<Fragment>, limit: nat) {
    Numbered(fs) && forall j :: 0 <= j < |fs| ==> 0 < |fs[j].data| <= limit && (fs[j].more ==> |fs[j].data| == limit)
  }

  ghost predicate ChunkSized(stale: set<Fragment>, limit: nat) {
    forall f :: f in stale ==> f.id < ID_MODULUS && 0 < |f.data| <= limit
  }

  // -- Harmless ones --------------------------------------------------------------------------------

  ghost predicate Good(b: Buffer, stale: set<Fragment>, fs: seq<Fragment>) {
    && b.expected <= ID_MODULUS
    && (b.expected < |fs| ==> b.payload == Concat(fs[..b.expected]))
    && forall i :: |fs| <= i < b.expected ==> HasId(stale, i)
  }

  /** The buffer after an accepted fragment. */
  function Grown(b: Buffer, f: Fragment): Buffer { Buffer(b.payload + f.data, (b.expected + 1) % 256) }

  lemma {:induction false} GrowsInside(b: Buffer, f: Fragment, stale: set<Fragment>, fs: seq<Fragment>, limit: nat)
    requires Chunks(fs, limit) && ChunkSized(stale, limit) && Harmless(stale, fs) && Good(b, stale, fs)
    requires (f in fs || f in stale) && f.id == b.expected < |fs|
    ensures Good(Grown(b, f), stale, fs) && (!f.more ==> Grown(b, f).payload == Concat(fs))
  {
    var e := b.expected;
    SmallCount(e + 1);
    ConcatSnoc(fs, e);
    if f !in fs { assert HarmlessOne(f, stale, fs); }
    if e + 1 == |fs| { assert fs[..e + 1] == fs; }
  }

  lemma {:induction false} GrowsBeyond(b: Buffer, f: Fragment, stale: set<Fragment>, fs: seq<Fragment>, limit: nat)
    requires Chunks(fs, limit) && ChunkSized(stale, limit) && Harmless(stale, fs) && Good(b, stale, fs)
    requires (f in fs || f in stale) && f.id == b.expected >= |fs|
    ensures Good(Grown(b, f), stale, fs) && f.more
  {
    assert f in stale && HarmlessOne(f, stale, fs);
    assert HasId(stale, b.expected);
    SmallCount(b.expected + 1);
  }

  lemma {:induction false} NextIsGood(b: Buffer, i: Input, stale: set<Fragment>, fs: seq<Fragment>, limit: nat)
    requires Chunks(fs, limit) && ChunkSized(stale, limit) && Harmless(stale, fs) && Good(b, stale, fs)
    requires i.frag in fs || i.frag in stale
    ensures Good(Next(b, i.frag, i.handled).0, stale, fs)
    ensures Next(b, i.frag, i.handled).1.Some? ==> Next(b, i.frag, i.handled).1.value == Concat(fs)
  {
    if i.frag.id == b.expected {
      if b.expected < |fs| {
        GrowsInside(b, i.frag, stale, fs, limit);
      } else {
        GrowsBeyond(b, i.frag, stale, fs, limit);
      }
    }
    EmptyIsGood(stale, fs);
  }

  lemma {:induction false} EmptyIsGood(stale: set<Fragment>, fs: seq<Fragment>)
    ensures Good(EMPTY, stale, fs)
  {
    assert fs[..0] == [];
  }

  lemma {:induction false} HarmlessIsSafe(b: Buffer, inputs: seq<Input>, stale: set<Fragment>, fs: seq<Fragment>,
      limit: nat)
    requires Chunks(fs, limit) && ChunkSized(stale, limit) && Harmless(stale, fs) && FromEither(inputs, fs, stale)
    requires Good(b, stale, fs)
    ensures Good(Alone(b, inputs), stale, fs)
    ensures forall d :: d in AloneOut(b, inputs) ==> d == Concat(fs)
  {
    if inputs != [] {
      var before, i := inputs[..|inputs| - 1], inputs[|inputs| - 1];
      assert i in inputs;
      HarmlessIsSafe(b, before, stale, fs, limit);
      NextIsGood(Alone(b, before), i, stale, fs, limit);
    }
  }

  // -- Harmful ones ---------------------------------------------------------------------------------

  lemma {:induction false} AloneConcat(b: Buffer, xs: seq<Input>, ys: seq<Input>)
    ensures Alone(b, xs + ys) == Alone(Alone(b, xs), ys)
    ensures AloneOut(b, xs + ys) == AloneOut(b, xs) + AloneOut(Alone(b, xs), ys)
  {
    if ys == [] {
      assert xs + ys == xs;
    } else {
      var front, y := ys[..|ys| - 1], ys[|ys| - 1];
      AloneConcat(b, xs, front);
      LastOf(xs, ys, front, y);
      AloneSnoc(b, xs + front, y);
      AloneSnoc(Alone(b, xs), front, y);
      var d := Next(Alone(b, xs + front), y.frag, y.handled).1;
      AssocOut(AloneOut(b, xs), AloneOut(Alone(b, xs), front), if d.Some? then [d.value] else []);
    }
  }

  lemma {:induction false} LastOf(xs: seq<Input>, ys: seq<Input>, front: seq<Input>, y: Input)
    requires ys != [] && front == ys[..|ys| - 1] && y == ys[|ys| - 1]
    ensures xs + ys == (xs + front) + [y] && ys == front + [y]
  {
  }

  lemma {:induction false} AssocOut(x: seq<seq<byte>>, y: seq<seq<byte>>, z: seq<seq<byte>>)
    ensures (x + y) + z == x + (y + z)
  {
  }

  /** After the fragments before it, a stale fragment is accepted. */
  lemma {:induction false} AcceptedAfter(fs: seq<Fragment>, f: Fragment, handled: bool)
    requires Numbered(fs) && f.id < |fs|
    ensures var inputs := InOrder(fs, f.id) + [Input(f, handled)];
            var payload := Concat(fs[..f.id]) + f.data;
            && Alone(EMPTY, inputs) == (if !f.more && handled then EMPTY else Buffer(payload, f.id + 1))
            && AloneOut(EMPTY, inputs) == if f.more then [] else [payload]
  {
    InOrderAppends(EMPTY, fs, f.id);
    AloneSnoc(EMPTY, InOrder(fs, f.id), Input(f, handled));
    SmallCount(f.id + 1);
    assert fs[0..f.id] == fs[..f.id] && [] + Concat(fs[..f.id]) == Concat(fs[..f.id]) && fs[..0] == [];
  }

  lemma {:induction false} CancelBoth(x: seq<byte>, f: seq<byte>, g: seq<byte>, z: seq<byte>)
    requires x + f + z == x + g + z
    ensures f == g
  {
    CancelSuffix(x + f, x + g, z);
    assert f == (x + f)[|x|..] && g == (x + g)[|x|..];
  }

  /** The payload around its fragment i. */
  lemma {:induction false} Around(fs: seq<Fragment>, i: nat)
    requires i < |fs|
    ensures Concat(fs) == Concat(fs[..i]) + fs[i].data + Concat(fs[i + 1..])
  {
    ConcatSplit(fs, i);
    ConcatSplit(fs[i..], 1);
    assert fs[i..][..1] == [fs[i]] && fs[i..][1..] == fs[i + 1..];
    assert Concat([fs[i]]) == fs[i].data by { assert [fs[i]][..0] == []; }
  }

  /** A stale last fragment in the place of one that says something else. */
  lemma {:induction false} HarmfulLast(f: Fragment, fs: seq<Fragment>, limit: nat)
      returns (inputs: seq<Input>, d: seq<byte>)
    requires Chunks(fs, limit) && f.id < |fs| && !f.more && (f.id + 1 == |fs| ==> f.data != fs[f.id].data)
    requires 0 < |f.data| <= limit
    ensures FromEither(inputs, fs, {f}) && d in AloneOut(EMPTY, inputs) && d != Concat(fs)
  {
    var i := f.id;
    InOrderFrom(fs, i);
    AcceptedAfter(fs, f, true);
    Around(fs, i);
    inputs, d := InOrder(fs, i) + [Input(f, true)], Concat(fs[..i]) + f.data;
    assert AloneOut(EMPTY, inputs) == [d];
    if i + 1 < |fs| {
      RestNotEmpty(fs, i + 1, limit);
    } else {
      assert fs[i + 1..] == [];
      if d == Concat(fs) { CancelBoth(Concat(fs[..i]), f.data, fs[i].data, []); }
    }
  }

  /** A stale fragment with more to follow in the place of one that says something else. */
  lemma {:induction false} HarmfulInside(f: Fragment, fs: seq<Fragment>, limit: nat)
      returns (inputs: seq<Input>, d: seq<byte>)
    requires Chunks(fs, limit) && f.id + 1 < |fs| && f.more && f.data != fs[f.id].data
    ensures FromEither(inputs, fs, {f}) && d in AloneOut(EMPTY, inputs) && d != Concat(fs)
  {
    var i := f.id;
    var head := InOrder(fs, i) + [Input(f, true)];
    InOrderFrom(fs, i);
    InOrderFrom(fs, |fs|);
    AcceptedAfter(fs, f, true);
    Around(fs, i);
    var x, z := Concat(fs[..i]), Concat(fs[i + 1..]);
    inputs, d := head + InOrder(fs, |fs|), x + f.data + z;
    AloneConcat(EMPTY, head, InOrder(fs, |fs|));
    InOrderFromBuffer(Buffer(x + f.data, i + 1), fs);
    if d == Concat(fs) { CancelBoth(x, f.data, fs[i].data, z); }
    assert AloneOut(EMPTY, inputs) == [] + [d];
  }

  lemma {:induction false} RestNotEmpty(fs: seq<Fragment>, k: nat, limit: nat)
    requires Chunks(fs, limit) && k < |fs|
    ensures |Concat(fs[k..])| > 0
  {
    var rest := fs[k..];
    assert rest[|rest| - 1] == fs[|fs| - 1];
  }

  /** The payload, not handled, and then stale fragments one after the other. */
  lemma {:induction false} Climb(stale: set<Fragment>, fs: seq<Fragment>, limit: nat, k: nat)
      returns (inputs: seq<Input>)
    requires Chunks(fs, limit) && ChunkSized(stale, limit) && |fs| <= k && forall i :: |fs| <= i < k ==> HasId(stale, i)
    ensures FromEither(inputs, fs, stale)
    ensures var b := Alone(EMPTY, inputs);
            b.expected == k <= ID_MODULUS && |b.payload| >= |Concat(fs)|
  {
    if k == |fs| {
      if fs == [] {
        inputs := [];
      } else {
        var n := |fs| - 1;
        inputs := InOrder(fs, n) + [Input(fs[n], false)];
        InOrderFrom(fs, n);
        AcceptedAfter(fs, fs[n], false);
        ConcatSnoc(fs, n);
        assert fs[..n + 1] == fs;
      }
    } else {
      var before := Climb(stale, fs, limit, k - 1);
      assert HasId(stale, k - 1);
      var g :| g in stale && g.id == k - 1;
      inputs := before + [Input(g, false)];
      AloneSnoc(EMPTY, before, Input(g, false));
      SmallCount(k);
    }
  }

  lemma {:induction false} HarmfulBeyond(f: Fragment, stale: set<Fragment>, fs: seq<Fragment>, limit: nat)
    returns (inputs: seq<Input>, d: seq<byte>)
    requires Chunks(fs, limit) && ChunkSized(stale, limit) && f in stale && f.id >= |fs| && !f.more
    requires forall i :: |fs| <= i < f.id ==> HasId(stale, i)
    ensures FromEither(inputs, fs, stale) && d in AloneOut(EMPTY, inputs) && d != Concat(fs)
  {
    var before := Climb(stale, fs, limit, f.id);
    inputs := before + [Input(f, true)];
    AloneSnoc(EMPTY, before, Input(f, true));
    d := Alone(EMPTY, before).payload + f.data;
    assert AloneOut(EMPTY, inputs) == AloneOut(EMPTY, before) + [d];
  }

  /** From an empty buffer, no arrivals of a payload's fragments and of stale ones hand on anything but the payload,
      exactly when the stale ones are harmless. */
  lemma {:induction false} SafeIffHarmless(stale: set<Fragment>, fs: seq<Fragment>, limit: nat)
    requires Chunks(fs, limit) && ChunkSized(stale, limit)
    ensures SafeWith(EMPTY, stale, fs) <==> Harmless(stale, fs)
  {
    if Harmless(stale, fs) {
      forall inputs, d | FromEither(inputs, fs, stale) && d in AloneOut(EMPTY, inputs) ensures d == Concat(fs) {
        EmptyIsGood(stale, fs);
        HarmlessIsSafe(EMPTY, inputs, stale, fs, limit);
      }
    } else {
      var f :| f in stale && !HarmlessOne(f, stale, fs);
      if f.id < |fs| && f.more {
        var inputs, d := HarmfulInside(f, fs, limit);
        assert FromEither(inputs, fs, stale);
      } else if f.id < |fs| {
        var inputs, d := HarmfulLast(f, fs, limit);
        assert FromEither(inputs, fs, stale);
      } else {
        var inputs, d := HarmfulBeyond(f, stale, fs, limit);
      }
    }
  }

  // -- Any buffer -----------------------------------------------------------------------------------

  /** Everything in the buffer came from fragments that are still about. */
  ghost predicate Backed(b: Buffer, stale: set<Fragment>) {
    b.expected <= ID_MODULUS && forall i :: 0 <= i < b.expected ==> HasId(stale, i)
  }

  /** A stale last fragment follows without a gap on position e. */
  ghost predicate LastReachable(e: nat, stale: set<Fragment>) {
    exists f :: f in stale && !f.more && Reaches(e, f.id, stale)
  }

  ghost predicate Reaches(e: nat, id: nat, stale: set<Fragment>) {
    e <= id && forall i :: e <= i < id ==> HasId(stale, i)
  }

  /** What the buffer and the stale fragments must be like when a payload is queued: if the buffer waits for a fragment
      of the payload, it holds those before it and the stale ones are harmless; if it waits for an id beyond them, no
      stale last fragment can be reached from there. */
  ghost predicate Acceptable(b: Buffer, stale: set<Fragment>, fs: seq<Fragment>) {
    if b.expected < |fs| then Fits(b, fs) && Harmless(stale, fs) else !LastReachable(b.expected, stale)
  }

  /** Beyond the payload and with no last fragment to reach, nothing is handed on. */
  lemma {:induction false} BeyondIsSilent(b: Buffer, inputs: seq<Input>, stale: set<Fragment>, fs: seq<Fragment>,
      limit: nat)
    requires Chunks(fs, limit) && ChunkSized(stale, limit) && FromEither(inputs, fs, stale)
    requires |fs| <= b.expected <= ID_MODULUS && !LastReachable(b.expected, stale)
    ensures AloneOut(b, inputs) == [] && Alone(b, inputs).expected <= ID_MODULUS
    ensures Reaches(b.expected, Alone(b, inputs).expected, stale)
  {
    if inputs != [] {
      var before, i := inputs[..|inputs| - 1], inputs[|inputs| - 1];
      assert i in inputs;
      BeyondIsSilent(b, before, stale, fs, limit);
      var c := Alone(b, before);
      if i.frag.id == c.expected {
        assert i.frag in stale && HasId(stale, c.expected);
        SmallCount(c.expected + 1);
      }
    }
  }

  /** Stale fragments one after the other, none of them handled. */
  lemma {:induction false} ClimbOn(b: Buffer, stale: set<Fragment>, limit: nat, k: nat) returns (inputs: seq<Input>)
    requires ChunkSized(stale, limit) && b.expected <= ID_MODULUS && Reaches(b.expected, k, stale)
    ensures FromEither(inputs, [], stale) && Alone(b, inputs).expected == k <= ID_MODULUS
    decreases k
  {
    inputs := [];
    if k > b.expected {
      var before := ClimbOn(b, stale, limit, k - 1);
      assert HasId(stale, k - 1);
      var g :| g in stale && g.id == k - 1;
      inputs := before + [Input(g, false)];
      AloneSnoc(b, before, Input(g, false));
      SmallCount(k);
    }
  }

  /** From where the buffer can be emptied, the stale fragments must be harmless. */
  lemma {:induction false} OnceEmptied(b: Buffer, before: seq<Input>, stale: set<Fragment>, fs: seq<Fragment>,
      limit: nat)
    requires Chunks(fs, limit) && ChunkSized(stale, limit) && FromEither(before, fs, stale) && Alone(b, before) == EMPTY
    requires SafeWith(b, stale, fs)
    ensures Harmless(stale, fs)
  {
    forall inputs, d | FromEither(inputs, fs, stale) && d in AloneOut(EMPTY, inputs) ensures d == Concat(fs) {
      AloneConcat(b, before, inputs);
      assert FromEither(before + inputs, fs, stale) && d in AloneOut(b, before + inputs);
    }
    SafeIffHarmless(stale, fs, limit);
  }

  lemma {:induction false} InsideIff(b: Buffer, stale: set<Fragment>, fs: seq<Fragment>, limit: nat)
    requires Chunks(fs, limit) && ChunkSized(stale, limit) && b.expected < |fs|
    ensures SafeWith(b, stale, fs) <==> Fits(b, fs) && Harmless(stale, fs)
  {
    if Fits(b, fs) && Harmless(stale, fs) {
      forall inputs, d | FromEither(inputs, fs, stale) && d in AloneOut(b, inputs) ensures d == Concat(fs) {
        HarmlessIsSafe(b, inputs, stale, fs, limit);
      }
    }
    if SafeWith(b, stale, fs) {
      var all := InOrder(fs, |fs|);
      InOrderFrom(fs, |fs|);
      assert FromEither(all, fs, stale);
      InOrderFromBuffer(b, fs);
      InOrderCompletesIff(b, fs);
      assert forall d :: d in AloneOut(b, all) ==> d == Concat(fs);
      InOrderEmpties(b, fs);
      OnceEmptied(b, all, stale, fs, limit);
    }
  }

  lemma {:induction false} InOrderEmpties(b: Buffer, fs: seq<Fragment>)
    requires Numbered(fs) && b.expected < |fs|
    ensures Alone(b, InOrder(fs, |fs|)) == EMPTY
  {
    var k := |fs| - 1;
    InOrderAppends(b, fs, k);
    AloneSnoc(b, InOrder(fs, k), Input(fs[k], true));
    AppendedNext(b, fs, k);
  }

  lemma {:induction false} BeyondIff(b: Buffer, stale: set<Fragment>, fs: seq<Fragment>, limit: nat)
    requires Chunks(fs, limit) && ChunkSized(stale, limit) && Backed(b, stale) && b.expected >= |fs|
    ensures SafeWith(b, stale, fs) <==> !LastReachable(b.expected, stale)
  {
    if LastReachable(b.expected, stale) {
      var f :| f in stale && !f.more && Reaches(b.expected, f.id, stale);
      var before := ClimbOn(b, stale, limit, f.id);
      AloneSnoc(b, before, Input(f, true));
      if SafeWith(b, stale, fs) {
        OnceEmptied(b, before + [Input(f, true)], stale, fs, limit);
        assert false;
      }
    } else {
      forall inputs | FromEither(inputs, fs, stale) ensures AloneOut(b, inputs) == [] {
        BeyondIsSilent(b, inputs, stale, fs, limit);
      }
    }
  }

  /** From any buffer made of fragments that are still about, no arrivals of a payload's fragments and of those hand on
      anything but the payload, exactly when the two are acceptable. */
  lemma {:induction false} SafeIffAcceptable(b: Buffer, stale: set<Fragment>, fs: seq<Fragment>, limit: nat)
    requires Chunks(fs, limit) && ChunkSized(stale, limit) && Backed(b, stale)
    ensures SafeWith(b, stale, fs) <==> Acceptable(b, stale, fs)
  {
    if b.expected < |fs| {
      InsideIff(b, stale, fs, limit);
    } else {
      BeyondIff(b, stale, fs, limit);
    }
  }
}
