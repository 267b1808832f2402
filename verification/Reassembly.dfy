/** Reassembly of GAS sessions over every sequence of arriving frames. */
module Reassembly {
  import opened Base
  import opened Fragmentation
  import opened Gas

  /** A frame that reaches the enrollee, and what its configuration handler answers should it be the last. */
  datatype Arrival = Arrival(src: Mac, input: Input)

  datatype Input = Input(frag: Fragment, handled: bool)

  datatype Delivery = Delivery(src: Mac, token: byte, payload: seq<byte>)

  function Step(buffers: map<string, Buffer>, a: Arrival): Outcome {
    OnComebackResponse(buffers, a.src, a.input.frag, a.input.handled, true)
  }

  /** From the buffers `start`: the buffers after the frames `arrivals`, and the payloads handed on in between. */
  function Buffers(start: map<string, Buffer>, arrivals: seq<Arrival>): map<string, Buffer> {
    if arrivals == [] then start
    else Step(Buffers(start, arrivals[..|arrivals| - 1]), arrivals[|arrivals| - 1]).buffers
  }

  function Deliveries(start: map<string, Buffer>, arrivals: seq<Arrival>): seq<Delivery> {
    if arrivals == [] then [] else
    var before, a := arrivals[..|arrivals| - 1], arrivals[|arrivals| - 1];
    var o := Step(Buffers(start, before), a);
    Deliveries(start, before)
      + if o.delivered.Some? then [Delivery(a.src, a.input.frag.token, o.delivered.value)] else []
  }

  // -- One session alone ----------------------------------------------------------------------------

  function Alone(b: Buffer, inputs: seq<Input>): Buffer {
    if inputs == [] then b else
    var i := inputs[|inputs| - 1];
    Next(Alone(b, inputs[..|inputs| - 1]), i.frag, i.handled).0
  }

  function AloneOut(b: Buffer, inputs: seq<Input>): seq<seq<byte>> {
    if inputs == [] then [] else
    var i := inputs[|inputs| - 1];
    var d := Next(Alone(b, inputs[..|inputs| - 1]), i.frag, i.handled).1;
    AloneOut(b, inputs[..|inputs| - 1]) + if d.Some? then [d.value] else []
  }

  lemma {:induction false} AloneSnoc(b: Buffer, inputs: seq<Input>, i: Input)
    ensures Alone(b, inputs + [i]) == Next(Alone(b, inputs), i.frag, i.handled).0
    ensures var d := Next(Alone(b, inputs), i.frag, i.handled).1;
            AloneOut(b, inputs + [i]) == AloneOut(b, inputs) + if d.Some? then [d.value] else []
  {
    assert (inputs + [i])[..|inputs|] == inputs;
  }

  // -- Sessions are isolated ------------------------------------------------------------------------

  predicate InSession(a: Arrival, m: Mac, t: byte) { a.src == m && a.input.frag.token == t }

  function Session(arrivals: seq<Arrival>, m: Mac, t: byte): seq<Input> {
    if arrivals == [] then [] else
    var before, a := arrivals[..|arrivals| - 1], arrivals[|arrivals| - 1];
    Session(before, m, t) + if InSession(a, m, t) then [a.input] else []
  }

  function DeliveredIn(ds: seq<Delivery>, m: Mac, t: byte): seq<seq<byte>> {
    if ds == [] then [] else
    var d := ds[|ds| - 1];
    DeliveredIn(ds[..|ds| - 1], m, t) + if d.src == m && d.token == t then [d.payload] else []
  }

  lemma {:induction false} DeliveredSnoc(ds: seq<Delivery>, d: Delivery, m: Mac, t: byte)
    ensures DeliveredIn(ds + [d], m, t)
         == DeliveredIn(ds, m, t) + if d.src == m && d.token == t then [d.payload] else []
  {
    assert (ds + [d])[..|ds|] == ds;
  }

  /** Session isolation.  From any buffers and however the frames of all sessions are interleaved, the buffer and the
      deliveries of each session are those of its own frames alone. */
  lemma {:induction false} SessionsAreIsolated(start: map<string, Buffer>, arrivals: seq<Arrival>, m: Mac, t: byte)
    ensures Lookup(Buffers(start, arrivals), Key(m, t)) == Alone(Lookup(start, Key(m, t)), Session(arrivals, m, t))
    ensures DeliveredIn(Deliveries(start, arrivals), m, t)
      == AloneOut(Lookup(start, Key(m, t)), Session(arrivals, m, t))
  {
    if arrivals != [] {
      var before, a := arrivals[..|arrivals| - 1], arrivals[|arrivals| - 1];
      SessionsAreIsolated(start, before, m, t);
      IsolatedStep(Lookup(start, Key(m, t)), Buffers(start, before), Deliveries(start, before), a, m, t,
                   Session(before, m, t));
    }
  }

  lemma {:induction false} IsolatedStep(b0: Buffer, b: map<string, Buffer>, ds: seq<Delivery>, a: Arrival, m: Mac,
      t: byte, own: seq<Input>)
    requires Lookup(b, Key(m, t)) == Alone(b0, own) && DeliveredIn(ds, m, t) == AloneOut(b0, own)
    ensures var own' := own + if InSession(a, m, t) then [a.input] else [];
            var o := Step(b, a);
            var ds' := ds + if o.delivered.Some? then [Delivery(a.src, a.input.frag.token, o.delivered.value)] else [];
            Lookup(o.buffers, Key(m, t)) == Alone(b0, own') && DeliveredIn(ds', m, t) == AloneOut(b0, own')
  {
    var o := Step(b, a);
    ResponseIsLocal(b, a.src, a.input.frag, a.input.handled, true, m, t);
    AloneSnoc(b0, own, a.input);
    assert own + [] == own && ds + [] == ds;
    if o.delivered.Some? { DeliveredSnoc(ds, Delivery(a.src, a.input.frag.token, o.delivered.value), m, t); }
  }

  // -- What is reassembled --------------------------------------------------------------------------

  /** Every frame is a fragment of the payload, in any order and any number of times. */
  ghost predicate Genuine(inputs: seq<Input>, fs: seq<Fragment>) { forall i :: i in inputs ==> i.frag in fs }

  /** The buffer holds the fragments accepted so far, and counts them. */
  ghost predicate HoldsPrefix(b: Buffer, fs: seq<Fragment>) {
    b.expected <= |fs| && b.payload == Concat(fs[..b.expected])
  }

  /** A buffer that a payload's fragments can only complete to that payload: it holds its first fragments, or waits for
      an id that none of them has. */
  ghost predicate Fits(b: Buffer, fs: seq<Fragment>) {
    b.expected < |fs| ==> b.payload == Concat(fs[..b.expected])
  }

  /** What the fragments of a payload that needs at most 128 of them look like. */
  ghost predicate Numbered(fs: seq<Fragment>) {
    |fs| <= ID_MODULUS && forall j :: 0 <= j < |fs| ==> fs[j].id == j && (fs[j].more <==> j + 1 < |fs|)
  }

  lemma {:induction false} SmallIsNumbered(payload: seq<byte>, limit: nat, t: byte)
    requires limit > 0 && |payload| <= ID_MODULUS * limit
    ensures Numbered(Fragments(payload, limit, t)) && Concat(Fragments(payload, limit, t)) == payload
  {
    FragmentsShape(payload, limit, t);
    FragmentCount(payload, limit, t, ID_MODULUS);
  }

  lemma {:induction false} Accepts(b: Buffer, fs: seq<Fragment>, j: nat)
    requires Numbered(fs) && Fits(b, fs) && b.expected == j < |fs|
    ensures var b' := Buffer(b.payload + fs[j].data, (j + 1) % 256);
            HoldsPrefix(b', fs) && (!fs[j].more ==> b'.payload == Concat(fs))
  {
    ConcatSnoc(fs, j);
    SmallCount(j + 1);
    if j + 1 == |fs| { assert fs[..j + 1] == fs; }
  }

  lemma {:induction false} SmallCount(n: nat)
    requires n <= ID_MODULUS
    ensures n % 256 == n
  {
  }

  /** The buffer does not change, or then holds exactly the fragments accepted. */
  lemma {:induction false} NextFits(b: Buffer, i: Input, fs: seq<Fragment>)
    requires Numbered(fs) && i.frag in fs && Fits(b, fs)
    ensures Next(b, i.frag, i.handled).0 == b || HoldsPrefix(Next(b, i.frag, i.handled).0, fs)
    ensures Next(b, i.frag, i.handled).1.Some? ==> Next(b, i.frag, i.handled).1.value == Concat(fs)
  {
    var j :| 0 <= j < |fs| && fs[j] == i.frag;
    if i.frag.id == b.expected { Accepts(b, fs, j); }
    EmptyHolds(fs);
  }

  lemma {:induction false} EmptyHolds(fs: seq<Fragment>)
    ensures HoldsPrefix(EMPTY, fs)
  {
    assert fs[..0] == [];
  }

  lemma {:induction false} AloneIsSafe(b: Buffer, inputs: seq<Input>, fs: seq<Fragment>)
    requires Numbered(fs) && Genuine(inputs, fs) && Fits(b, fs)
    ensures Alone(b, inputs) == b || HoldsPrefix(Alone(b, inputs), fs)
    ensures forall d :: d in AloneOut(b, inputs) ==> d == Concat(fs)
  {
    if inputs != [] {
      var before, i := inputs[..|inputs| - 1], inputs[|inputs| - 1];
      assert i in inputs;
      AloneIsSafe(b, before, fs);
      NextFits(Alone(b, before), i, fs);
    }
  }

  // -- A lost fragment ------------------------------------------------------------------------------

  /** As long as one fragment has not arrived, only fragments before it are accepted and nothing is handed on. */
  lemma {:induction false} NothingWithoutFragment(b: Buffer, inputs: seq<Input>, fs: seq<Fragment>, k: nat)
    requires Numbered(fs) && Genuine(inputs, fs) && k < |fs| && forall i :: i in inputs ==> i.frag != fs[k]
    requires b.expected <= k
    ensures Alone(b, inputs).expected <= k && AloneOut(b, inputs) == []
  {
    if inputs != [] {
      var before, i := inputs[..|inputs| - 1], inputs[|inputs| - 1];
      assert i in inputs;
      NothingWithoutFragment(b, before, fs, k);
      var j :| 0 <= j < |fs| && fs[j] == i.frag;
      assert fs[j].id == j && fs[j].more == (j + 1 < |fs|);
    }
  }

  // -- In order -------------------------------------------------------------------------------------

  /** The first k fragments, each once and in order, and handled when complete. */
  function InOrder(fs: seq<Fragment>, k: nat): seq<Input>
    requires k <= |fs|
  {
    if k == 0 then [] else InOrder(fs, k - 1) + [Input(fs[k - 1], true)]
  }

  lemma {:induction false} InOrderFrom(fs: seq<Fragment>, k: nat)
    requires k <= |fs|
    ensures Genuine(InOrder(fs, k), fs)
  {
    if k > 0 { InOrderFrom(fs, k - 1); }
  }

  /** Fragments before the one the buffer waits for are passed over, those from it on are appended. */
  function Appended(b: Buffer, fs: seq<Fragment>, k: nat): Buffer
    requires k <= |fs| <= ID_MODULUS
  {
    if k <= b.expected then b else Buffer(b.payload + Concat(fs[b.expected..k]), k)
  }

  lemma {:induction false} AppendedNext(b: Buffer, fs: seq<Fragment>, k: nat)
    requires k < |fs| && Numbered(fs)
    ensures var (b', d) := Next(Appended(b, fs, k), fs[k], true);
            if k + 1 < |fs| then b' == Appended(b, fs, k + 1) && d == None
            else d == if k < b.expected then None else Some(Appended(b, fs, k + 1).payload)
  {
    var e := b.expected;
    if e <= k {
      SmallCount(k + 1);
      assert fs[e..k + 1][..k - e] == fs[e..k] && fs[e..k + 1][k - e] == fs[k];
      assert (b.payload + Concat(fs[e..k])) + fs[k].data == b.payload + Concat(fs[e..k + 1]);
      if k == e { assert fs[e..k] == [] && b.payload + [] == b.payload; }
    }
  }

  lemma {:induction false} InOrderAppends(b: Buffer, fs: seq<Fragment>, k: nat)
    requires k < |fs| && Numbered(fs)
    ensures Alone(b, InOrder(fs, k)) == Appended(b, fs, k) && AloneOut(b, InOrder(fs, k)) == []
  {
    if k > 0 {
      InOrderAppends(b, fs, k - 1);
      AloneSnoc(b, InOrder(fs, k - 1), Input(fs[k - 1], true));
      AppendedNext(b, fs, k - 1);
    }
  }

  /** In-order arrival of all fragments completes whatever the buffer holds with the fragments from the one it waits
      for, and hands on nothing if it waits for an id beyond them. */
  lemma {:induction false} InOrderFromBuffer(b: Buffer, fs: seq<Fragment>)
    requires Numbered(fs) && fs != []
    ensures AloneOut(b, InOrder(fs, |fs|)) == if b.expected < |fs| then [b.payload + Concat(fs[b.expected..])] else []
  {
    var k := |fs| - 1;
    InOrderAppends(b, fs, k);
    AloneSnoc(b, InOrder(fs, k), Input(fs[k], true));
    LastNext(b, fs);
  }

  lemma {:induction false} LastNext(b: Buffer, fs: seq<Fragment>)
    requires Numbered(fs) && fs != []
    ensures Next(Appended(b, fs, |fs| - 1), fs[|fs| - 1], true).1
         == if b.expected < |fs| then Some(b.payload + Concat(fs[b.expected..])) else None
  {
    AppendedNext(b, fs, |fs| - 1);
    if b.expected < |fs| { assert fs[b.expected..|fs|] == fs[b.expected..]; }
  }

  lemma {:induction false} ConcatSplit(fs: seq<Fragment>, e: nat)
    requires e <= |fs|
    ensures Concat(fs) == Concat(fs[..e]) + Concat(fs[e..])
  {
    if e < |fs| {
      var k := |fs| - 1;
      ConcatSplit(fs[..k], e);
      assert fs[..k][..e] == fs[..e] && fs[e..][..k - e] == fs[..k][e..];
    } else {
      assert fs[..e] == fs && fs[e..] == [];
    }
  }

  lemma {:induction false} CancelSuffix(x: seq<byte>, y: seq<byte>, z: seq<byte>)
    requires x + z == y + z
    ensures x == y
  {
    assert |x| == |y|;
    assert x == (x + z)[..|x|] && y == (y + z)[..|y|];
  }

  /** In-order arrival hands on the payload, once, exactly when the buffer holds its first fragments, not all of them.
      */
  lemma {:induction false} InOrderCompletesIff(b: Buffer, fs: seq<Fragment>)
    requires Numbered(fs) && fs != []
    ensures AloneOut(b, InOrder(fs, |fs|)) == [Concat(fs)] <==> b.expected < |fs| && Fits(b, fs)
    ensures b.expected < |fs| && !Fits(b, fs) ==>
              exists d :: d in AloneOut(b, InOrder(fs, |fs|)) && d != Concat(fs)
  {
    var e, out := b.expected, AloneOut(b, InOrder(fs, |fs|));
    InOrderFromBuffer(b, fs);
    if e < |fs| {
      ConcatSplit(fs, e);
      var d := b.payload + Concat(fs[e..]);
      assert out[0] == d && d in out;
      if d == Concat(fs) { CancelSuffix(b.payload, Concat(fs[..e]), Concat(fs[e..])); }
    }
  }

  // -- A whole dialogue -----------------------------------------------------------------------------

  /** A comeback request has reached the proxy agent: it serves the first fragment of the queue, and only the request
      that the enrollee then sends brings the next one.  The result is what the configuration handler is given. */
  function Dialogue(queue: seq<Fragment>, buffers: map<string, Buffer>, m: Mac): seq<seq<byte>>
    decreases |queue|
  {
    var (rest, served) := Serve(queue, true);
    if served == None then [] else
    var o := OnComebackResponse(buffers, m, served.value, true, true);
    (if o.delivered.Some? then [o.delivered.value] else []) + if o.request then Dialogue(rest, o.buffers, m) else []
  }

  /** The fragments from id k on, the last of them the only one with nothing to follow. */
  ghost predicate Consecutive(queue: seq<Fragment>, k: nat, t: byte) {
    && queue != [] && k + |queue| <= ID_MODULUS
    && forall i :: 0 <= i < |queue| ==>
         queue[i].id == k + i && queue[i].token == t && (queue[i].more <==> i + 1 < |queue|)
  }

  lemma {:induction false} DialogueStep(queue: seq<Fragment>, buffers: map<string, Buffer>, m: Mac, o: Outcome)
    requires queue != [] && o == OnComebackResponse(buffers, m, queue[0], true, true)
    ensures o.request && o.delivered == None ==> Dialogue(queue, buffers, m) == Dialogue(queue[1..], o.buffers, m)
    ensures !o.request ==> Dialogue(queue, buffers, m) == if o.delivered == None then [] else [o.delivered.value]
  {
  }

  lemma {:induction false} DialogueFrom(queue: seq<Fragment>, buffers: map<string, Buffer>, m: Mac, t: byte, k: nat)
    requires Consecutive(queue, k, t) && Lookup(buffers, Key(m, t)).expected == k
    ensures Dialogue(queue, buffers, m) == [Lookup(buffers, Key(m, t)).payload + Concat(queue)]
    decreases |queue|
  {
    var b := Lookup(buffers, Key(m, t));
    var o := OnComebackResponse(buffers, m, queue[0], true, true);
    AcceptsNext(queue[0], buffers, m, k, o);
    DialogueStep(queue, buffers, m, o);
    FirstOf(queue, b.payload, k, t);
    if |queue| > 1 { DialogueFrom(queue[1..], o.buffers, m, t, k + 1); }
  }

  lemma {:induction false} FirstOf(queue: seq<Fragment>, before: seq<byte>, k: nat, t: byte)
    requires Consecutive(queue, k, t)
    ensures |queue| == 1 ==> before + queue[0].data == before + Concat(queue)
    ensures |queue| > 1 ==> Consecutive(queue[1..], k + 1, t)
    ensures |queue| > 1 ==> (before + queue[0].data) + Concat(queue[1..]) == before + Concat(queue)
  {
    ConcatHead(queue, 0, before);
    assert queue[0..] == queue;
  }

  lemma {:induction false} AcceptsNext(f: Fragment, buffers: map<string, Buffer>, m: Mac, k: nat, o: Outcome)
    requires f.id == k < ID_MODULUS && Lookup(buffers, Key(m, f.token)).expected == k
    requires o == OnComebackResponse(buffers, m, f, true, true)
    ensures var b := Lookup(buffers, Key(m, f.token));
            && (o.request <==> f.more) && o.delivered == (if f.more then None else Some(b.payload + f.data))
            && (f.more ==> Lookup(o.buffers, Key(m, f.token)) == Buffer(b.payload + f.data, k + 1))
  {
    ResponseIsLocal(buffers, m, f, true, true, m, f.token);
    SmallCount(k + 1);
  }

  lemma {:induction false} ConcatHead(fs: seq<Fragment>, k: nat, before: seq<byte>)
    requires k < |fs|
    ensures (before + fs[k].data) + Concat(fs[k + 1..]) == before + Concat(fs[k..])
    ensures k + 1 == |fs| ==> before + Concat(fs[k..]) == before + fs[k].data
  {
    ConcatSplit(fs[k..], 1);
    assert fs[k..][..1] == [fs[k]] && fs[k..][1..] == fs[k + 1..];
    assert Concat([fs[k]]) == fs[k].data by { assert [fs[k]][..0] == []; }
    if k + 1 == |fs| { assert fs[k + 1..] == []; }
  }

  /** A dialogue for a new payload completes with it exactly when the buffer of the session is empty; with anything left
      over from before, its first fragment is refused and the dialogue ends. */
  lemma {:induction false} DialogueCompletesIff(fs: seq<Fragment>, buffers: map<string, Buffer>, m: Mac, t: byte)
    requires Numbered(fs) && fs != [] && forall f :: f in fs ==> f.token == t
    ensures Dialogue(fs, buffers, m) == [Concat(fs)] <==> Lookup(buffers, Key(m, t)) == EMPTY
    ensures Lookup(buffers, Key(m, t)).expected != 0 ==> Dialogue(fs, buffers, m) == []
  {
    var b := Lookup(buffers, Key(m, t));
    assert Consecutive(fs, 0, t) by { assert forall i :: 0 <= i < |fs| ==> fs[i] in fs; }
    if b.expected == 0 {
      DialogueFrom(fs, buffers, m, t, 0);
      if b.payload + Concat(fs) == Concat(fs) { assert |b.payload| == 0; }
      assert [] + Concat(fs) == Concat(fs);
    } else {
      ResponseIsLocal(buffers, m, fs[0], true, true, m, t);
      DialogueStep(fs, buffers, m, OnComebackResponse(buffers, m, fs[0], true, true));
    }
  }

  // -- Exactly when reassembly is safe --------------------------------------------------------------

  /** From a buffer, no arrivals of a payload's fragments hand on anything but the payload, exactly when it fits. */
  lemma {:induction false} SafeFromIff(b: Buffer, fs: seq<Fragment>)
    requires Numbered(fs)
    ensures (forall inputs, d :: Genuine(inputs, fs) && d in AloneOut(b, inputs) ==> d == Concat(fs)) <==> Fits(b, fs)
  {
    if Fits(b, fs) {
      forall inputs, d | Genuine(inputs, fs) && d in AloneOut(b, inputs) ensures d == Concat(fs) {
        AloneIsSafe(b, inputs, fs);
      }
    } else {
      InOrderCompletesIff(b, fs);
      InOrderFrom(fs, |fs|);
    }
  }

  /** Frames of one sender. */
  function From(m: Mac, inputs: seq<Input>): seq<Arrival> {
    if inputs == [] then [] else From(m, inputs[..|inputs| - 1]) + [Arrival(m, inputs[|inputs| - 1])]
  }

  lemma {:induction false} SessionOf(m: Mac, t: byte, inputs: seq<Input>)
    requires forall i :: i in inputs ==> i.frag.token == t
    ensures Session(From(m, inputs), m, t) == inputs
  {
    if inputs != [] {
      var k := |inputs| - 1;
      SessionOf(m, t, inputs[..k]);
      assert inputs[k] in inputs && inputs == inputs[..k] + [inputs[k]];
      var all := From(m, inputs);
      assert all[..|all| - 1] == From(m, inputs[..k]);
    }
  }

  /** Every arrival sequence, of this and other sessions, in which the session's frames are the payload's fragments. */
  ghost predicate AlwaysDelivers(start: map<string, Buffer>, m: Mac, t: byte, fs: seq<Fragment>) {
    forall arrivals, d ::
      Genuine(Session(arrivals, m, t), fs) && d in DeliveredIn(Deliveries(start, arrivals), m, t) ==> d == Concat(fs)
  }

  /** GAS safety.  Whatever the enrollee's buffers hold from earlier exchanges, and whatever is lost, duplicated,
      reordered or interleaved with other sessions from now on: a session for a payload of at most 128 fragments only
      ever hands on that payload, exactly when its buffer fits, that is, holds the payload's first fragments or waits
      for an id beyond them. */
  lemma {:induction false} ReassemblyIsSafeIff(start: map<string, Buffer>, m: Mac, t: byte, payload: seq<byte>,
      limit: nat)
    requires limit > 0 && |payload| <= ID_MODULUS * limit
    ensures var fs := Fragments(payload, limit, t);
            AlwaysDelivers(start, m, t, fs) <==> Fits(Lookup(start, Key(m, t)), fs)
  {
    var fs := Fragments(payload, limit, t);
    var b := Lookup(start, Key(m, t));
    SmallIsNumbered(payload, limit, t);
    SafeFromIff(b, fs);
    if Fits(b, fs) {
      forall arrivals, d | Genuine(Session(arrivals, m, t), fs) && d in DeliveredIn(Deliveries(start, arrivals), m, t)
        ensures d == Concat(fs)
      {
        SessionsAreIsolated(start, arrivals, m, t);
      }
    } else {
      var inputs, d :| Genuine(inputs, fs) && d in AloneOut(b, inputs) && d != Concat(fs);
      FragmentsShape(payload, limit, t);
      SessionOf(m, t, inputs);
      SessionsAreIsolated(start, From(m, inputs), m, t);
    }
  }

  /** The buffer of such a session, at every moment: as it was, or exactly the fragments accepted. */
  lemma {:induction false} BufferHoldsPrefix(start: map<string, Buffer>, arrivals: seq<Arrival>, m: Mac, t: byte,
      fs: seq<Fragment>)
    requires Numbered(fs) && Genuine(Session(arrivals, m, t), fs) && Fits(Lookup(start, Key(m, t)), fs)
    ensures var b := Lookup(Buffers(start, arrivals), Key(m, t));
            b == Lookup(start, Key(m, t)) || HoldsPrefix(b, fs)
  {
    SessionsAreIsolated(start, arrivals, m, t);
    AloneIsSafe(Lookup(start, Key(m, t)), Session(arrivals, m, t), fs);
  }

  lemma {:induction false} TwoFragments(p: seq<byte>, limit: nat, t: byte)
    requires limit > 0 && limit < |p| <= 2 * limit
    ensures Fragments(p, limit, t) == [Fragment(t, 0, true, p[..limit]), Fragment(t, 1, false, p[limit..])]
  {
    var rest := p[limit..];
    assert rest[..|rest|] == rest && rest[|rest|..] == [];
    assert FragmentsFrom(rest, limit, t, 1) == [Fragment(t, 1, false, rest)];
  }

  // -- The bound is exact ---------------------------------------------------------------------------

  /** Fragment k arrives when the k before it, or the first 128 of them, have been accepted. */
  lemma {:induction false} NextInOrder(fs: seq<Fragment>, k: nat)
    requires k < |fs| && fs[k].id == k % ID_MODULUS && fs[k].more
    ensures var e, e' := Min(k, ID_MODULUS), Min(k + 1, ID_MODULUS);
            Next(Buffer(Concat(fs[..e]), e), fs[k], true) == (Buffer(Concat(fs[..e']), e'), None)
  {
    if k < ID_MODULUS {
      ConcatSnoc(fs, k);
    }
  }

  /** The ids the receiver is offered and the moment they stop matching its byte counter. */
  lemma {:induction false} InOrderProgress(fs: seq<Fragment>, k: nat)
    requires k <= |fs|
    requires forall j :: 0 <= j < k ==> fs[j].id == j % ID_MODULUS && fs[j].more
    ensures var e := Min(k, ID_MODULUS);
            Alone(EMPTY, InOrder(fs, k)) == Buffer(Concat(fs[..e]), e) && AloneOut(EMPTY, InOrder(fs, k)) == []
  {
    if k == 0 {
      assert fs[..0] == [];
    } else {
      InOrderProgress(fs, k - 1);
      AloneSnoc(EMPTY, InOrder(fs, k - 1), Input(fs[k - 1], true));
      NextInOrder(fs, k - 1);
    }
  }

  /** What the next fragment in order does to a buffer that was empty, up to the moment the ids stop matching. */
  lemma {:induction false} OneMoreInOrder(fs: seq<Fragment>, k: nat)
    requires k < |fs| && k <= ID_MODULUS
    requires forall j :: 0 <= j < |fs| ==> fs[j].id == j % ID_MODULUS && (fs[j].more <==> j + 1 < |fs|)
    ensures Asks(Alone(EMPTY, InOrder(fs, k)), fs[k], true) <==> k < ID_MODULUS && k + 1 < |fs|
    ensures AloneOut(EMPTY, InOrder(fs, k + 1)) == if k < ID_MODULUS && k + 1 == |fs| then [Concat(fs)] else []
  {
    InOrderProgress(fs, k);
    AloneSnoc(EMPTY, InOrder(fs, k), Input(fs[k], true));
    IdOf(fs[k].id, k);
    if k + 1 == |fs| { LastInOrder(fs, k); }
  }

  lemma {:induction false} IdOf(id: nat, k: nat)
    requires id == k % ID_MODULUS && k <= ID_MODULUS
    ensures id == if k < ID_MODULUS then k else 0
  {
  }

  /** In-order arrival of all fragments at an empty buffer hands on something exactly when there are between 1 and 128
      of them, and then it is the payload, once; with more, reassembly stops at 128 fragments. */
  lemma {:induction false} InOrderCompletes(payload: seq<byte>, limit: nat, t: byte)
    requires limit > 0
    ensures var fs := Fragments(payload, limit, t);
            AloneOut(EMPTY, InOrder(fs, |fs|)) == if 0 < |payload| <= ID_MODULUS * limit then [payload] else []
  {
    var fs := Fragments(payload, limit, t);
    FragmentsShape(payload, limit, t);
    FragmentCount(payload, limit, t, ID_MODULUS);
    if |fs| > 0 {
      var k := |fs| - 1;
      InOrderProgress(fs, k);
      AloneSnoc(EMPTY, InOrder(fs, k), Input(fs[k], true));
      LastInOrder(fs, k);
    }
  }

  lemma {:induction false} LastInOrder(fs: seq<Fragment>, k: nat)
    requires k + 1 == |fs| && fs[k].id == k % ID_MODULUS && !fs[k].more
    ensures var e := Min(k, ID_MODULUS);
            Next(Buffer(Concat(fs[..e]), e), fs[k], true).1 == if k < ID_MODULUS then Some(Concat(fs)) else None
  {
    if k < ID_MODULUS {
      ConcatSnoc(fs, k);
      assert fs[..k + 1] == fs;
    }
  }

  /** A reordering that a payload of more than 128 fragments allows: the last fragment is accepted in place of
      an earlier one with the same id. */
  function Overtaken(fs: seq<Fragment>): seq<Input>
    requires |fs| > 0
  {
    InOrder(fs, (|fs| - 1) % ID_MODULUS) + [Input(fs[|fs| - 1], true)]
  }

  lemma {:induction false} OvertakenIsShort(payload: seq<byte>, limit: nat, t: byte)
    requires limit > 0 && |payload| > ID_MODULUS * limit
    ensures var fs := Fragments(payload, limit, t);
            && |fs| > 0 && Genuine(Overtaken(fs), fs)
            && exists d :: d in AloneOut(EMPTY, Overtaken(fs)) && d != payload
  {
    var fs := Fragments(payload, limit, t);
    FragmentsShape(payload, limit, t);
    FragmentCount(payload, limit, t, ID_MODULUS);
    var n := |fs| - 1;
    var k := n % ID_MODULUS;
    InOrderFrom(fs, k);
    InOrderProgress(fs, k);
    AloneSnoc(EMPTY, InOrder(fs, k), Input(fs[n], true));
    var d := Concat(fs[..k]) + fs[n].data;
    assert AloneOut(EMPTY, Overtaken(fs)) == [d];
    assert d in AloneOut(EMPTY, Overtaken(fs));
    ShorterWithoutMiddle(fs, limit, k, n);
  }

  lemma {:induction false} ShorterWithoutMiddle(fs: seq<Fragment>, limit: nat, k: nat, n: nat)
    requires limit > 0 && k < n && n + 1 == |fs| && forall j :: 0 <= j < n ==> |fs[j].data| == limit
    ensures |Concat(fs[..k]) + fs[n].data| < |Concat(fs)|
  {
    ConcatLength(fs, limit, k);
    ConcatLength(fs, limit, n);
    ConcatSnoc(fs, n);
    assert fs[..n + 1] == fs;
    MulLess(k, n, limit);
  }

  lemma {:induction false} MulLess(a: nat, b: nat, c: nat)
    requires a < b && c > 0
    ensures a * c < b * c
  {
  }

  lemma {:induction false} ConcatLength(fs: seq<Fragment>, limit: nat, k: nat)
    requires k <= |fs| && forall j :: 0 <= j < k ==> |fs[j].data| == limit
    ensures |Concat(fs[..k])| == k * limit
  {
    if k > 0 {
      ConcatLength(fs, limit, k - 1);
      ConcatSnoc(fs, k - 1);
      assert k * limit == (k - 1) * limit + limit;
    }
  }

  /** From an empty buffer, no reordering, duplication or loss makes the enrollee hand on anything but the payload,
      exactly when the payload needs at most 128 fragments. */
  lemma {:induction false} SafeExactlyUpTo128(payload: seq<byte>, limit: nat, t: byte)
    requires limit > 0
    ensures (forall inputs, d ::
               Genuine(inputs, Fragments(payload, limit, t)) && d in AloneOut(EMPTY, inputs) ==> d == payload)
            <==> |payload| <= ID_MODULUS * limit
  {
    var fs := Fragments(payload, limit, t);
    if |payload| <= ID_MODULUS * limit {
      SmallIsNumbered(payload, limit, t);
      EmptyHolds(fs);
      SafeFromIff(EMPTY, fs);
    } else {
      OvertakenIsShort(payload, limit, t);
    }
  }
}
