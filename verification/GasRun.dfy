/** The comeback exchanges between a proxy agent's queue and an enrollee, one payload after the other, over an air
    interface that may lose, duplicate and reorder what is sent.  All of them use one token: the enrollee always asks
    with dialog token 1. */
module GasRun {
  import opened Base
  import opened Fragmentation
  import opened Gas
  import opened Reassembly
  import opened Stale

  /** A fragment that left the queue, and whether it could be sent. */
  datatype Served = Served(frag: Fragment, sent: bool)

  /** A payload handed on by the enrollee, and the one the proxy agent was serving then. */
  datatype Handed = Handed(payload: seq<byte>, meant: seq<byte>)

  /** `payload` is the one being served, `served` what left the queue since it was queued, `stale` what earlier
      exchanges put on the air, `start` the enrollee's buffer when it was queued, `inputs` what the enrollee received
      since, and `before` what it handed on earlier. */
  datatype Exchange = Exchange(
    payload: seq<byte>, queue: seq<Fragment>, served: seq<Served>, stale: set<Fragment>,
    start: Buffer, inputs: seq<Input>, before: seq<Handed>)

  /** A comeback request reaches the proxy agent, whose handler looks at nothing in it but the sender, so it may be a
      duplicate or come unasked; a response reaches the enrollee; or a new payload replaces the queue. */
  datatype Move = Request(sent: bool) | Arrive(frag: Fragment, handled: bool) | Requeue(payload: seq<byte>)

  datatype Config = Config(limit: nat, token: byte)

  function FragmentsOf(c: Config, payload: seq<byte>): seq<Fragment>
    requires c.limit > 0
  {
    Fragments(payload, c.limit, c.token)
  }

  function OnAir(x: Exchange): set<Fragment> { set s | s in x.served && s.sent :: s.frag }

  function BufferOf(x: Exchange): Buffer { Alone(x.start, x.inputs) }

  /** What the enrollee handed on since the payload was queued. */
  function Out(x: Exchange): seq<seq<byte>> { AloneOut(x.start, x.inputs) }

  function Tagged(out: seq<seq<byte>>, meant: seq<byte>): seq<Handed> {
    seq(|out|, i requires 0 <= i < |out| => Handed(out[i], meant))
  }

  /** Everything handed on so far. */
  function AllHanded(x: Exchange): seq<Handed> { x.before + Tagged(Out(x), x.payload) }

  function Queued(c: Config, payload: seq<byte>, buffer: Buffer, stale: set<Fragment>, before: seq<Handed>): Exchange
    requires c.limit > 0
  {
    Exchange(payload, FragmentsOf(c, payload), [], stale, buffer, [], before)
  }

  /** A move that cannot happen leaves the exchange as it is. */
  function Apply(c: Config, x: Exchange, move: Move): Exchange
    requires c.limit > 0
  {
    match move
    case Request(sent) =>
      if x.queue == [] then x
      else x.(queue := Serve(x.queue, sent).0, served := x.served + [Served(x.queue[0], Serve(x.queue, sent).1.Some?)])
    case Arrive(frag, handled) =>
      if frag !in OnAir(x) + x.stale then x else x.(inputs := x.inputs + [Input(frag, handled)])
    case Requeue(payload) =>
      Queued(c, payload, BufferOf(x), x.stale + OnAir(x), AllHanded(x))
  }

  function Run(c: Config, x: Exchange, moves: seq<Move>): Exchange
    requires c.limit > 0
  {
    if moves == [] then x else Apply(c, Run(c, x, moves[..|moves| - 1]), moves[|moves| - 1])
  }

  /** The first exchange with an enrollee whose buffers are empty. */
  function First(c: Config, payload: seq<byte>): Exchange
    requires c.limit > 0
  {
    Queued(c, payload, EMPTY, {}, [])
  }

  // -- The queue ------------------------------------------------------------------------------------

  /** The fragments served since the payload was queued are its first ones, each once and in order, and the queue holds
      the others. */
  ghost predicate ServesInOrder(c: Config, x: Exchange)
    requires c.limit > 0
  {
    var fs, k := FragmentsOf(c, x.payload), |x.served|;
    k <= |fs| && x.queue == fs[k..] && forall i :: 0 <= i < k ==> x.served[i].frag == fs[i]
  }

  lemma {:induction false} ApplyServesInOrder(c: Config, x: Exchange, move: Move)
    requires c.limit > 0 && ServesInOrder(c, x)
    ensures ServesInOrder(c, Apply(c, x, move))
  {
    var fs, k := FragmentsOf(c, x.payload), |x.served|;
    if move.Request? && x.queue != [] { assert fs[k..][1..] == fs[k + 1..]; }
  }

  lemma {:induction false} RunServesInOrder(c: Config, x: Exchange, moves: seq<Move>)
    requires c.limit > 0 && ServesInOrder(c, x)
    ensures ServesInOrder(c, Run(c, x, moves))
  {
    if moves != [] {
      RunServesInOrder(c, x, moves[..|moves| - 1]);
      ApplyServesInOrder(c, Run(c, x, moves[..|moves| - 1]), moves[|moves| - 1]);
    }
  }

  // -- One payload ----------------------------------------------------------------------------------

  /** No new payload is queued, and only fragments of the present one arrive. */
  ghost predicate Undisturbed(c: Config, x: Exchange, moves: seq<Move>)
    requires c.limit > 0
  {
    forall i :: 0 <= i < |moves| ==>
      !moves[i].Requeue? && (moves[i].Arrive? ==> moves[i].frag in OnAir(Run(c, x, moves[..i])))
  }

  lemma {:induction false} OnAirIsGenuine(c: Config, x: Exchange, f: Fragment)
    requires c.limit > 0 && ServesInOrder(c, x) && f in OnAir(x)
    ensures f in FragmentsOf(c, x.payload)
  {
    var s :| s in x.served && s.sent && s.frag == f;
    var i :| 0 <= i < |x.served| && x.served[i] == s;
    assert f == FragmentsOf(c, x.payload)[i];
  }

  lemma {:induction false} UndisturbedIsGenuine(c: Config, x: Exchange, moves: seq<Move>)
    requires c.limit > 0 && ServesInOrder(c, x) && Undisturbed(c, x, moves)
      && Genuine(x.inputs, FragmentsOf(c, x.payload))
    ensures var y := Run(c, x, moves);
            y.payload == x.payload && y.start == x.start && y.before == x.before
                && Genuine(y.inputs, FragmentsOf(c, x.payload))
  {
    if moves != [] {
      var k := |moves| - 1;
      var front := moves[..k];
      forall i | 0 <= i < k
        ensures !front[i].Requeue? && (front[i].Arrive? ==> front[i].frag in OnAir(Run(c, x, front[..i])))
      {
        assert front[..i] == moves[..i];
      }
      UndisturbedIsGenuine(c, x, front);
      RunServesInOrder(c, x, front);
      if moves[k].Arrive? { OnAirIsGenuine(c, Run(c, x, front), moves[k].frag); }
    }
  }

  /** GAS end to end.  In every undisturbed run for a payload of at most 128 fragments, from a buffer that fits: what is
      handed on is the payload; the buffer is as it was or holds exactly the fragments accepted; each fragment left the
      queue at most once, in order, and the queue holds the others. */
  lemma {:induction false} EndToEnd(c: Config, payload: seq<byte>, b: Buffer, stale: set<Fragment>,
      before: seq<Handed>, moves: seq<Move>)
    requires c.limit > 0 && |payload| <= ID_MODULUS * c.limit && Fits(b, FragmentsOf(c, payload))
    requires Undisturbed(c, Queued(c, payload, b, stale, before), moves)
    ensures var x := Run(c, Queued(c, payload, b, stale, before), moves);
            && (forall d :: d in Out(x) ==> d == payload)
            && (BufferOf(x) == b || HoldsPrefix(BufferOf(x), FragmentsOf(c, payload)))
            && x.payload == payload && ServesInOrder(c, x)
  {
    var x0 := Queued(c, payload, b, stale, before);
    SmallIsNumbered(payload, c.limit, c.token);
    RunServesInOrder(c, x0, moves);
    UndisturbedIsGenuine(c, x0, moves);
    AloneIsSafe(b, Run(c, x0, moves).inputs, FragmentsOf(c, payload));
  }

  /** A fragment whose send failed is not sent again for this payload, so that from a buffer not yet past it nothing is
      handed on. */
  lemma {:induction false} LostForever(c: Config, payload: seq<byte>, b: Buffer, moves: seq<Move>, k: nat)
    requires c.limit > 0 && |payload| <= ID_MODULUS * c.limit && b.expected <= k
    requires var x0 := Queued(c, payload, b, {}, []);
             Undisturbed(c, x0, moves) && k < |Run(c, x0, moves).served| && !Run(c, x0, moves).served[k].sent
    ensures Out(Run(c, Queued(c, payload, b, {}, []), moves)) == []
  {
    var x0 := Queued(c, payload, b, {}, []);
    var x, fs := Run(c, x0, moves), FragmentsOf(c, payload);
    SmallIsNumbered(payload, c.limit, c.token);
    RunServesInOrder(c, x0, moves);
    UndisturbedIsGenuine(c, x0, moves);
    NeverOnAir(c, x0, moves, k);
    NothingWithoutFragment(b, x.inputs, fs, k);
  }

  lemma {:induction false} NeverOnAir(c: Config, x0: Exchange, moves: seq<Move>, k: nat)
    requires c.limit > 0 && ServesInOrder(c, x0) && Undisturbed(c, x0, moves) && Numbered(FragmentsOf(c, x0.payload))
    requires var x := Run(c, x0, moves);
             k < |x.served| && !x.served[k].sent && x.payload == x0.payload
    requires x0.inputs == [] && k < |FragmentsOf(c, x0.payload)|
    ensures forall i :: i in Run(c, x0, moves).inputs ==> i.frag != FragmentsOf(c, x0.payload)[k]
  {
    var x, fs := Run(c, x0, moves), FragmentsOf(c, x0.payload);
    RunServesInOrder(c, x0, moves);
    InputsOnAir(c, x0, moves);
    forall i | i in x.inputs ensures i.frag != fs[k] {
      var s :| s in x.served && s.sent && s.frag == i.frag;
      var j :| 0 <= j < |x.served| && x.served[j] == s;
      assert fs[j].id == j && fs[k].id == k;
    }
  }

  /** Everything that arrived was on the air. */
  lemma {:induction false} InputsOnAir(c: Config, x0: Exchange, moves: seq<Move>)
    requires c.limit > 0 && Undisturbed(c, x0, moves) && x0.inputs == []
    ensures forall i :: i in Run(c, x0, moves).inputs ==> i.frag in OnAir(Run(c, x0, moves))
  {
    if moves != [] {
      var k := |moves| - 1;
      var front := moves[..k];
      forall i | 0 <= i < k
        ensures !front[i].Requeue? && (front[i].Arrive? ==> front[i].frag in OnAir(Run(c, x0, front[..i])))
      {
        assert front[..i] == moves[..i];
      }
      InputsOnAir(c, x0, front);
      var x, y := Run(c, x0, front), Run(c, x0, moves);
      assert x.served <= y.served;
      assert OnAir(x) <= OnAir(y);
    }
  }

  // -- Without losses -------------------------------------------------------------------------------

  /** Serving and delivering each fragment in turn. */
  function Lossless(fs: seq<Fragment>, k: nat): seq<Move>
    requires k <= |fs|
  {
    if k == 0 then [] else Lossless(fs, k - 1) + [Request(true)] + [Arrive(fs[k - 1], true)]
  }

  lemma {:induction false} RunSnoc(c: Config, x: Exchange, moves: seq<Move>, move: Move)
    requires c.limit > 0
    ensures Run(c, x, moves + [move]) == Apply(c, Run(c, x, moves), move)
  {
    assert (moves + [move])[..|moves|] == moves;
  }

  /** The next fragment is served and delivered. */
  lemma {:induction false} ServeAndDeliver(c: Config, y: Exchange)
    requires c.limit > 0 && ServesInOrder(c, y) && |y.served| < |FragmentsOf(c, y.payload)|
    ensures var f := FragmentsOf(c, y.payload)[|y.served|];
            var y1 := Apply(c, y, Request(true));
            var y2 := Apply(c, y1, Arrive(f, true));
            && f in OnAir(y1) && ServesInOrder(c, y2)
            && y2 == y.(queue := y2.queue, served := y.served + [Served(f, true)],
                        inputs := y.inputs + [Input(f, true)])
  {
    var f := FragmentsOf(c, y.payload)[|y.served|];
    var y1 := Apply(c, y, Request(true));
    ApplyServesInOrder(c, y, Request(true));
    ApplyServesInOrder(c, y1, Arrive(f, true));
    assert y1.served == y.served + [Served(f, true)] && Served(f, true) in y1.served;
  }

  lemma {:induction false} LosslessRun(c: Config, x: Exchange, k: nat, y: Exchange)
    requires c.limit > 0 && k <= |FragmentsOf(c, x.payload)| && y == Run(c, x, Lossless(FragmentsOf(c, x.payload), k))
    requires x == Queued(c, x.payload, x.start, x.stale, x.before)
    ensures ServesInOrder(c, y) && |y.served| == k
    ensures y == x.(queue := y.queue, served := y.served, inputs := InOrder(FragmentsOf(c, x.payload), k))
    decreases k
  {
    if k > 0 {
      var fs := FragmentsOf(c, x.payload);
      var moves := Lossless(fs, k - 1);
      var z := Run(c, x, moves);
      LosslessRun(c, x, k - 1, z);
      ServeAndDeliver(c, z);
      RunSnoc(c, x, moves, Request(true));
      RunSnoc(c, x, moves + [Request(true)], Arrive(fs[k - 1], true));
    }
  }

  lemma {:induction false} LosslessUndisturbed(c: Config, x: Exchange, k: nat)
    requires c.limit > 0 && k <= |FragmentsOf(c, x.payload)|
    requires x == Queued(c, x.payload, x.start, x.stale, x.before)
    ensures Undisturbed(c, x, Lossless(FragmentsOf(c, x.payload), k))
  {
    if k > 0 {
      var fs := FragmentsOf(c, x.payload);
      var moves := Lossless(fs, k - 1);
      var z := Run(c, x, moves);
      LosslessUndisturbed(c, x, k - 1);
      LosslessRun(c, x, k - 1, z);
      UndisturbedPair(c, x, moves, z);
    }
  }

  /** Serving and delivering one more fragment. */
  lemma {:induction false} UndisturbedPair(c: Config, x: Exchange, moves: seq<Move>, z: Exchange)
    requires c.limit > 0 && Undisturbed(c, x, moves) && z == Run(c, x, moves)
    requires ServesInOrder(c, z) && |z.served| < |FragmentsOf(c, z.payload)|
    ensures var f := FragmentsOf(c, z.payload)[|z.served|];
            Undisturbed(c, x, moves + [Request(true)] + [Arrive(f, true)])
  {
    ServeAndDeliver(c, z);
    RunSnoc(c, x, moves, Request(true));
    UndisturbedSnoc(c, x, moves, Request(true));
    UndisturbedSnoc(c, x, moves + [Request(true)], Arrive(FragmentsOf(c, z.payload)[|z.served|], true));
  }

  lemma {:induction false} UndisturbedSnoc(c: Config, x: Exchange, moves: seq<Move>, move: Move)
    requires c.limit > 0 && Undisturbed(c, x, moves) && !move.Requeue?
    requires move.Arrive? ==> move.frag in OnAir(Run(c, x, moves))
    ensures Undisturbed(c, x, moves + [move])
  {
    var all := moves + [move];
    forall i | 0 <= i < |all|
      ensures !all[i].Requeue? && (all[i].Arrive? ==> all[i].frag in OnAir(Run(c, x, all[..i])))
    {
      assert all[..i] == moves[..i];
      if i == |moves| { assert moves[..i] == moves; }
    }
  }

  /** A comeback request has reached the proxy agent, and nothing is lost from then on: each further request is the one
      that the enrollee sends for the fragment it has just accepted. */
  function Converse(c: Config, x: Exchange): Exchange
    requires c.limit > 0
    decreases |x.queue|
  {
    if x.queue == [] then x else
    var f := x.queue[0];
    var y := Apply(c, Apply(c, x, Request(true)), Arrive(f, true));
    if Asks(BufferOf(x), f, true) then Converse(c, y) else y
  }

  /** The first k fragments were served and arrived, in order, at an empty buffer. */
  ghost predicate InProgress(c: Config, x: Exchange, k: nat)
    requires c.limit > 0
  {
    var fs := FragmentsOf(c, x.payload);
    ServesInOrder(c, x) && |x.served| == k <= |fs| && x.start == EMPTY && x.inputs == InOrder(fs, k)
  }

  lemma {:induction false} OneMoreServed(c: Config, x: Exchange, k: nat, y: Exchange)
    requires c.limit > 0 && InProgress(c, x, k) && k < |FragmentsOf(c, x.payload)|
    requires y == Apply(c, Apply(c, x, Request(true)), Arrive(FragmentsOf(c, x.payload)[k], true))
    ensures InProgress(c, y, k + 1) && y.payload == x.payload && x.queue != [] && y.queue == x.queue[1..]
    ensures x.queue[0] == FragmentsOf(c, x.payload)[k]
  {
    ServeAndDeliver(c, x);
  }

  lemma {:induction false} OneMoreAccepted(c: Config, x: Exchange, k: nat, y: Exchange)
    requires c.limit > 0 && InProgress(c, x, k) && k < |FragmentsOf(c, x.payload)| && k <= ID_MODULUS
    requires InProgress(c, y, k + 1) && y.payload == x.payload
    ensures var fs := FragmentsOf(c, x.payload);
            && (Asks(BufferOf(x), fs[k], true) <==> k < ID_MODULUS && k + 1 < |fs|)
            && Out(y) == if k < ID_MODULUS && k + 1 == |fs| then [x.payload] else []
  {
    FragmentsShape(x.payload, c.limit, c.token);
    OneMoreInOrder(FragmentsOf(c, x.payload), k);
  }

  /** The conversation once the first k fragments were accepted. */
  lemma {:induction false} ConverseFrom(c: Config, x: Exchange, k: nat)
    requires c.limit > 0 && InProgress(c, x, k) && k < |FragmentsOf(c, x.payload)| && k <= ID_MODULUS
    ensures var n, y := |FragmentsOf(c, x.payload)|, Converse(c, x);
            && Out(y) == (if n <= ID_MODULUS then [x.payload] else [])
            && |y.queue| == if n <= ID_MODULUS then 0 else n - 129
    decreases ID_MODULUS - k
  {
    var fs := FragmentsOf(c, x.payload);
    var y := Apply(c, Apply(c, x, Request(true)), Arrive(fs[k], true));
    OneMoreServed(c, x, k, y);
    OneMoreAccepted(c, x, k, y);
    if k < ID_MODULUS && k + 1 < |fs| { ConverseFrom(c, y, k + 1); }
  }

  /** An exchange without losses, from an empty buffer, runs by itself to its end and hands on the payload, once,
      exactly when the payload is not empty and needs at most 128 fragments.  With more, the 129th fragment served is
      refused, nothing is handed on and the rest is never asked for. */
  lemma {:induction false} LosslessCompletes(c: Config, payload: seq<byte>)
    requires c.limit > 0
    ensures var n, x := |FragmentsOf(c, payload)|, Converse(c, First(c, payload));
            && Out(x) == (if 0 < |payload| <= ID_MODULUS * c.limit then [payload] else [])
            && |x.queue| == if n <= ID_MODULUS then 0 else n - 129
  {
    FragmentsShape(payload, c.limit, c.token);
    FragmentCount(payload, c.limit, c.token, ID_MODULUS);
    if payload != [] { ConverseFrom(c, First(c, payload), 0); }
  }

  // -- One payload after another --------------------------------------------------------------------

  /** Queueing a payload is safe, that is, every undisturbed run from then on hands on only that payload, exactly when
      the enrollee's buffer fits it at that moment. */
  lemma {:induction false} RequeueIsSafeIff(c: Config, x: Exchange, payload: seq<byte>)
    requires c.limit > 0 && |payload| <= ID_MODULUS * c.limit
    ensures var y := Apply(c, x, Requeue(payload));
            (forall moves, d :: Undisturbed(c, y, moves) && d in Out(Run(c, y, moves)) ==> d == payload)
            <==> Fits(BufferOf(x), FragmentsOf(c, payload))
  {
    var fs, y := FragmentsOf(c, payload), Apply(c, x, Requeue(payload));
    SmallIsNumbered(payload, c.limit, c.token);
    if Fits(BufferOf(x), fs) {
      forall moves, d | Undisturbed(c, y, moves) && d in Out(Run(c, y, moves)) ensures d == payload {
        EndToEnd(c, payload, BufferOf(x), y.stale, y.before, moves);
      }
    } else {
      var moves := Lossless(fs, |fs|);
      LosslessRun(c, y, |fs|, Run(c, y, moves));
      LosslessUndisturbed(c, y, |fs|);
      InOrderCompletesIff(BufferOf(x), fs);
      var d :| d in AloneOut(BufferOf(x), InOrder(fs, |fs|)) && d != Concat(fs);
      assert d in Out(Run(c, y, moves));
    }
  }

  // -- Fragments that outlive their exchange --------------------------------------------------------

  ghost predicate NoRequeue(moves: seq<Move>) { forall m :: m in moves ==> !m.Requeue? }

  lemma {:induction false} InputsFromEither(c: Config, y: Exchange, moves: seq<Move>)
    requires c.limit > 0 && ServesInOrder(c, y) && NoRequeue(moves) && y.inputs == []
    ensures var x := Run(c, y, moves);
            && x.payload == y.payload && x.start == y.start && x.stale == y.stale
            && FromEither(x.inputs, FragmentsOf(c, y.payload), y.stale)
  {
    if moves != [] {
      var k := |moves| - 1;
      assert moves[k] in moves && forall m :: m in moves[..k] ==> m in moves;
      InputsFromEither(c, y, moves[..k]);
      RunServesInOrder(c, y, moves[..k]);
      var x := Run(c, y, moves[..k]);
      if moves[k].Arrive? && moves[k].frag in OnAir(x) { OnAirIsGenuine(c, x, moves[k].frag); }
    }
  }

  /** All fragments are served first. */
  function Requests(k: nat): seq<Move> { if k == 0 then [] else Requests(k - 1) + [Request(true)] }

  lemma {:induction false} AllOnAir(c: Config, y: Exchange, k: nat, x: Exchange)
    requires c.limit > 0 && y == Queued(c, y.payload, y.start, y.stale, y.before) && k <= |FragmentsOf(c, y.payload)|
    requires x == Run(c, y, Requests(k))
    ensures ServesInOrder(c, x) && |x.served| == k && x == y.(queue := x.queue, served := x.served)
    ensures forall i :: 0 <= i < k ==> x.served[i].sent
    ensures NoRequeue(Requests(k))
    decreases k
  {
    if k > 0 {
      var z := Run(c, y, Requests(k - 1));
      AllOnAir(c, y, k - 1, z);
      RunSnoc(c, y, Requests(k - 1), Request(true));
      ApplyServesInOrder(c, z, Request(true));
    }
  }

  function Arrivals(inputs: seq<Input>): seq<Move> {
    if inputs == [] then [] else
    Arrivals(inputs[..|inputs| - 1]) + [Arrive(inputs[|inputs| - 1].frag, inputs[|inputs| - 1].handled)]
  }

  lemma {:induction false} OneArrives(c: Config, x: Exchange, before: seq<Input>, i: Input)
    requires c.limit > 0 && i.frag in OnAir(x) + x.stale
    ensures var z := x.(inputs := x.inputs + before);
            Apply(c, z, Arrive(i.frag, i.handled)) == x.(inputs := x.inputs + (before + [i]))
  {
    var z := x.(inputs := x.inputs + before);
    assert OnAir(z) == OnAir(x);
    assert x.inputs + before + [i] == x.inputs + (before + [i]);
  }

  lemma {:induction false} AllArrive(c: Config, x: Exchange, inputs: seq<Input>)
    requires c.limit > 0 && forall i :: i in inputs ==> i.frag in OnAir(x) + x.stale
    ensures Run(c, x, Arrivals(inputs)) == x.(inputs := x.inputs + inputs) && NoRequeue(Arrivals(inputs))
  {
    if inputs == [] {
      assert x.inputs + inputs == x.inputs;
    } else {
      var before, i := inputs[..|inputs| - 1], inputs[|inputs| - 1];
      assert i in inputs && inputs == before + [i];
      AllArrive(c, x, before);
      RunSnoc(c, x, Arrivals(before), Arrive(i.frag, i.handled));
      OneArrives(c, x, before, i);
    }
  }

  lemma {:induction false} RunConcat(c: Config, x: Exchange, m: seq<Move>, n: seq<Move>)
    requires c.limit > 0
    ensures Run(c, x, m + n) == Run(c, Run(c, x, m), n)
  {
    if n == [] {
      assert m + n == m;
    } else {
      var front, last := n[..|n| - 1], n[|n| - 1];
      RunConcat(c, x, m, front);
      LastMove(m, n, front, last);
      RunSnoc(c, x, m + front, last);
      RunSnoc(c, Run(c, x, m), front, last);
    }
  }

  lemma {:induction false} LastMove(m: seq<Move>, n: seq<Move>, front: seq<Move>, last: Move)
    requires n != [] && front == n[..|n| - 1] && last == n[|n| - 1]
    ensures m + n == (m + front) + [last] && n == front + [last]
  {
  }

  /** Any arrivals of the payload's fragments and stale ones come about in some run. */
  lemma {:induction false} SomeRun(c: Config, y: Exchange, inputs: seq<Input>) returns (moves: seq<Move>)
    requires c.limit > 0 && y == Queued(c, y.payload, y.start, y.stale, y.before)
    requires FromEither(inputs, FragmentsOf(c, y.payload), y.stale)
    ensures NoRequeue(moves) && Out(Run(c, y, moves)) == AloneOut(y.start, inputs)
  {
    var fs := FragmentsOf(c, y.payload);
    var x := Run(c, y, Requests(|fs|));
    AllOnAir(c, y, |fs|, x);
    forall i | i in inputs ensures i.frag in OnAir(x) + x.stale {
      if i.frag in fs {
        var j :| 0 <= j < |fs| && fs[j] == i.frag;
        assert x.served[j] in x.served;
      }
    }
    AllArrive(c, x, inputs);
    RunConcat(c, y, Requests(|fs|), Arrivals(inputs));
    moves := Requests(|fs|) + Arrivals(inputs);
    assert x.inputs + inputs == inputs;
  }

  /** Every run from here on, until the next payload is queued, hands on only the one being served, whatever is still on
      the air. */
  ghost predicate SafeDespiteStale(c: Config, x: Exchange)
    requires c.limit > 0
  {
    forall moves, d :: NoRequeue(moves) && d in Out(Run(c, x, moves)) ==> d == x.payload
  }

  /** For a payload just queued that is a question about the arrivals of its fragments and of stale ones. */
  lemma {:induction false} SafeIffArrivalsSafe(c: Config, y: Exchange)
    requires c.limit > 0 && |y.payload| <= ID_MODULUS * c.limit
    requires y == Queued(c, y.payload, y.start, y.stale, y.before)
    ensures SafeDespiteStale(c, y) <==> SafeWith(y.start, y.stale, FragmentsOf(c, y.payload))
  {
    var fs := FragmentsOf(c, y.payload);
    FragmentsShape(y.payload, c.limit, c.token);
    if SafeWith(y.start, y.stale, fs) {
      forall moves, d | NoRequeue(moves) && d in Out(Run(c, y, moves)) ensures d == y.payload {
        InputsFromEither(c, y, moves);
      }
    } else {
      var inputs, d :| FromEither(inputs, fs, y.stale) && d in AloneOut(y.start, inputs) && d != Concat(fs);
      var moves := SomeRun(c, y, inputs);
    }
  }

  lemma {:induction false} FragmentsAreChunks(c: Config, payload: seq<byte>)
    requires c.limit > 0 && |payload| <= ID_MODULUS * c.limit
    ensures Chunks(FragmentsOf(c, payload), c.limit)
  {
    SmallIsNumbered(payload, c.limit, c.token);
    FragmentsShape(payload, c.limit, c.token);
  }

  /** In every run, queueing one more payload is safe against everything still on the air exactly when what the enrollee
      holds and what is on the air are acceptable to it. */
  lemma {:induction false} RequeueIsSafeDespiteStaleIff(c: Config, first: seq<byte>, moves: seq<Move>,
      payload: seq<byte>)
    requires c.limit > 0 && |payload| <= ID_MODULUS * c.limit
    ensures var x := Run(c, First(c, first), moves);
            SafeDespiteStale(c, Apply(c, x, Requeue(payload)))
            <==> Acceptable(BufferOf(x), x.stale + OnAir(x), FragmentsOf(c, payload))
  {
    var x := Run(c, First(c, first), moves);
    AirIsChunkSized(c, first, moves);
    BufferIsBacked(c, first, moves);
    FragmentsAreChunks(c, payload);
    SafeIffArrivalsSafe(c, Apply(c, x, Requeue(payload)));
    SafeIffAcceptable(BufferOf(x), x.stale + OnAir(x), FragmentsOf(c, payload), c.limit);
  }

  /** What is ever on the air has a seven-bit id and fits the limit. */
  lemma {:induction false} AirIsChunkSized(c: Config, payload: seq<byte>, moves: seq<Move>)
    requires c.limit > 0
    ensures var x := Run(c, First(c, payload), moves);
            ServesInOrder(c, x) && ChunkSized(x.stale + OnAir(x), c.limit)
  {
    var x := Run(c, First(c, payload), moves);
    RunServesInOrder(c, First(c, payload), moves);
    OnAirIsChunkSized(c, x);
    if moves != [] {
      var k := |moves| - 1;
      AirIsChunkSized(c, payload, moves[..k]);
    }
  }

  lemma {:induction false} OnAirIsChunkSized(c: Config, x: Exchange)
    requires c.limit > 0 && ServesInOrder(c, x)
    ensures ChunkSized(OnAir(x), c.limit)
  {
    FragmentsShape(x.payload, c.limit, c.token);
    forall f | f in OnAir(x) ensures f.id < ID_MODULUS && 0 < |f.data| <= c.limit {
      OnAirIsGenuine(c, x, f);
    }
  }

  lemma {:induction false} NextIsBacked(b: Buffer, f: Fragment, handled: bool, air: set<Fragment>, limit: nat)
    requires Backed(b, air) && ChunkSized(air, limit) && f in air
    ensures Backed(Next(b, f, handled).0, air)
  {
    if f.id == b.expected {
      assert HasId(air, b.expected);
      SmallCount(b.expected + 1);
    }
  }

  /** In every run, what the enrollee's buffer holds came from fragments that are still on the air. */
  lemma {:induction false} BufferIsBacked(c: Config, payload: seq<byte>, moves: seq<Move>)
    requires c.limit > 0
    ensures var x := Run(c, First(c, payload), moves);
            Backed(BufferOf(x), x.stale + OnAir(x))
  {
    if moves != [] {
      var k := |moves| - 1;
      var x, move := Run(c, First(c, payload), moves[..k]), moves[k];
      BufferIsBacked(c, payload, moves[..k]);
      AirIsChunkSized(c, payload, moves[..k]);
      match move
      case Request(sent) =>
        assert OnAir(x) <= OnAir(Apply(c, x, move));
        MoreAir(BufferOf(x), x.stale + OnAir(x), x.stale + OnAir(Apply(c, x, move)));
      case Arrive(frag, handled) =>
        if frag in OnAir(x) + x.stale {
          AloneSnoc(x.start, x.inputs, Input(frag, handled));
          NextIsBacked(BufferOf(x), frag, handled, x.stale + OnAir(x), c.limit);
        }
      case Requeue(_) =>
        assert OnAir(Apply(c, x, move)) == {};
        MoreAir(BufferOf(x), x.stale + OnAir(x), x.stale + OnAir(x) + {});
    }
  }

  lemma {:induction false} MoreAir(b: Buffer, air: set<Fragment>, air': set<Fragment>)
    requires Backed(b, air) && air <= air'
    ensures Backed(b, air')
  {
    forall i | 0 <= i < b.expected ensures HasId(air', i) {
      assert HasId(air, i);
      var g :| g in air && g.id == i;
      assert g in air';
    }
  }

  /** The payload queued by move i is acceptable at that moment. */
  ghost predicate AcceptableAt(c: Config, x0: Exchange, moves: seq<Move>, i: nat)
    requires c.limit > 0 && i < |moves| && moves[i].Requeue?
  {
    var x := Run(c, x0, moves[..i]);
    Acceptable(BufferOf(x), x.stale + OnAir(x), FragmentsOf(c, moves[i].payload))
  }

  lemma {:induction false} TaggedAsMeant(out: seq<seq<byte>>, meant: seq<byte>)
    requires forall d :: d in out ==> d == meant
    ensures forall h :: h in Tagged(out, meant) ==> h.payload == h.meant
  {
    forall h | h in Tagged(out, meant) ensures h.payload == h.meant {
      var i :| 0 <= i < |out| && Tagged(out, meant)[i] == h;
      assert out[i] in out;
    }
  }

  /** In a run that is safe at every moment, everything handed on is the payload being served at that moment. */
  lemma {:induction false} SafeRunHands(c: Config, payload: seq<byte>, moves: seq<Move>, k: nat)
    requires c.limit > 0 && k <= |moves|
    requires forall i :: 0 <= i <= |moves| ==> SafeDespiteStale(c, Run(c, First(c, payload), moves[..i]))
    ensures forall h :: h in AllHanded(Run(c, First(c, payload), moves[..k])) ==> h.payload == h.meant
    decreases k
  {
    var x := Run(c, First(c, payload), moves[..k]);
    assert SafeDespiteStale(c, x) && NoRequeue([]) && Run(c, x, []) == x;
    TaggedAsMeant(Out(x), x.payload);
    if k > 0 {
      SafeRunHands(c, payload, moves, k - 1);
      assert moves[..k] == moves[..k - 1] + [moves[k - 1]];
      RunSnoc(c, First(c, payload), moves[..k - 1], moves[k - 1]);
    }
  }

  /** What was handed on stays handed on, with the payload that was being served then. */
  lemma {:induction false} HandedGrows(c: Config, x: Exchange, move: Move)
    requires c.limit > 0
    ensures AllHanded(x) <= AllHanded(Apply(c, x, move))
  {
    if move.Arrive? && move.frag in OnAir(x) + x.stale { AloneSnoc(x.start, x.inputs, Input(move.frag, move.handled)); }
  }

  /** In every run of any number of exchanges of at most 128 fragments, with fragments of all of them lost, repeated,
      overtaken or delayed into later ones: the enrollee is safe at every moment exactly when every payload was
      acceptable at the moment it was queued; and then everything handed on is the payload meant. */
  lemma {:induction false} EveryExchangeIff(c: Config, payload: seq<byte>, moves: seq<Move>)
    requires c.limit > 0 && |payload| <= ID_MODULUS * c.limit
    requires forall m :: m in moves && m.Requeue? ==> |m.payload| <= ID_MODULUS * c.limit
    ensures (forall k :: 0 <= k <= |moves| ==> SafeDespiteStale(c, Run(c, First(c, payload), moves[..k])))
            <==> (forall i :: 0 <= i < |moves| && moves[i].Requeue? ==> AcceptableAt(c, First(c, payload), moves, i))
    ensures (forall i :: 0 <= i < |moves| && moves[i].Requeue? ==> AcceptableAt(c, First(c, payload), moves, i)) ==>
            forall h :: h in AllHanded(Run(c, First(c, payload), moves)) ==> h.payload == h.meant
  {
    var x0 := First(c, payload);
    forall i | 0 <= i < |moves| && moves[i].Requeue?
      ensures AcceptableAt(c, x0, moves, i) <==> SafeDespiteStale(c, Run(c, x0, moves[..i + 1]))
    {
      assert moves[..i + 1] == moves[..i] + [moves[i]];
      RunSnoc(c, x0, moves[..i], moves[i]);
      RequeueIsSafeDespiteStaleIff(c, payload, moves[..i], moves[i].payload);
    }
    if forall i :: 0 <= i < |moves| && moves[i].Requeue? ==> AcceptableAt(c, x0, moves, i) {
      forall k | 0 <= k <= |moves| ensures SafeDespiteStale(c, Run(c, x0, moves[..k])) {
        SafeSoFar(c, payload, moves, k);
      }
      SafeRunHands(c, payload, moves, |moves|);
      assert moves[..|moves|] == moves;
    }
  }

  lemma {:induction false} SafeSoFar(c: Config, payload: seq<byte>, moves: seq<Move>, k: nat)
    requires c.limit > 0 && |payload| <= ID_MODULUS * c.limit && k <= |moves|
    requires forall i :: 0 <= i < |moves| && moves[i].Requeue? ==>
               SafeDespiteStale(c, Run(c, First(c, payload), moves[..i + 1]))
    ensures SafeDespiteStale(c, Run(c, First(c, payload), moves[..k]))
  {
    var x0 := First(c, payload);
    if k == 0 {
      FragmentsAreChunks(c, payload);
      SafeIffAcceptable(EMPTY, {}, FragmentsOf(c, payload), c.limit);
      assert FragmentsOf(c, payload)[..0] == [];
      SafeIffArrivalsSafe(c, x0);
    } else if !moves[k - 1].Requeue? {
      SafeSoFar(c, payload, moves, k - 1);
      assert moves[..k] == moves[..k - 1] + [moves[k - 1]];
      RunSnoc(c, x0, moves[..k - 1], moves[k - 1]);
      StaysSafe(c, Run(c, x0, moves[..k - 1]), moves[k - 1]);
    }
  }

  lemma {:induction false} StaysSafe(c: Config, x: Exchange, move: Move)
    requires c.limit > 0 && SafeDespiteStale(c, x) && !move.Requeue?
    ensures SafeDespiteStale(c, Apply(c, x, move))
  {
    var y := Apply(c, x, move);
    assert [move][..0] == [];
    assert Run(c, x, [move]) == y;
    forall moves, d | NoRequeue(moves) && d in Out(Run(c, y, moves)) ensures d == y.payload {
      RunConcat(c, x, [move], moves);
      assert NoRequeue([move] + moves);
    }
  }

  // -- Any number of payloads -----------------------------------------------------------------------

  /** A move that queues a payload of at most 128 fragments only when the buffer fits it, and delivers only fragments of
      the present payload. */
  ghost predicate Careful(c: Config, x: Exchange, move: Move)
    requires c.limit > 0
  {
    match move
    case Request(_) => true
    case Arrive(frag, _) => frag in OnAir(x)
    case Requeue(payload) => |payload| <= ID_MODULUS * c.limit && Fits(BufferOf(x), FragmentsOf(c, payload))
  }

  ghost predicate AllCareful(c: Config, x: Exchange, moves: seq<Move>)
    requires c.limit > 0
  {
    forall i :: 0 <= i < |moves| ==> Careful(c, Run(c, x, moves[..i]), moves[i])
  }

  ghost predicate Sound(c: Config, x: Exchange)
    requires c.limit > 0
  {
    var fs := FragmentsOf(c, x.payload);
    && ServesInOrder(c, x) && |x.payload| <= ID_MODULUS * c.limit && Fits(x.start, fs) && Genuine(x.inputs, fs)
    && forall h :: h in x.before ==> h.payload == h.meant
  }

  lemma {:induction false} SoundHands(c: Config, x: Exchange)
    requires c.limit > 0 && Sound(c, x)
    ensures forall h :: h in AllHanded(x) ==> h.payload == h.meant
  {
    SmallIsNumbered(x.payload, c.limit, c.token);
    AloneIsSafe(x.start, x.inputs, FragmentsOf(c, x.payload));
    forall h | h in Tagged(Out(x), x.payload) ensures h.payload == h.meant {
      var i :| 0 <= i < |Out(x)| && Tagged(Out(x), x.payload)[i] == h;
      assert Out(x)[i] in Out(x);
    }
  }

  lemma {:induction false} CarefulKeepsSound(c: Config, x: Exchange, move: Move)
    requires c.limit > 0 && Sound(c, x) && Careful(c, x, move)
    ensures Sound(c, Apply(c, x, move))
  {
    ApplyServesInOrder(c, x, move);
    SoundHands(c, x);
    if move.Arrive? { OnAirIsGenuine(c, x, move.frag); }
  }

  /** In every run of any number of exchanges, in which payloads are queued only when the enrollee's buffer fits them
      and no fragment outlives its exchange, everything handed on is the payload being served at that moment. */
  lemma {:induction false} ManyExchanges(c: Config, payload: seq<byte>, moves: seq<Move>)
    requires c.limit > 0 && |payload| <= ID_MODULUS * c.limit && AllCareful(c, First(c, payload), moves)
    ensures var x := Run(c, First(c, payload), moves);
            Sound(c, x) && forall h :: h in AllHanded(x) ==> h.payload == h.meant
  {
    var x0 := First(c, payload);
    if moves == [] {
      EmptyHolds(FragmentsOf(c, payload));
    } else {
      var k := |moves| - 1;
      forall i | 0 <= i < k ensures Careful(c, Run(c, x0, moves[..k][..i]), moves[..k][i]) {
        assert moves[..k][..i] == moves[..i] && Careful(c, Run(c, x0, moves[..i]), moves[i]);
      }
      ManyExchanges(c, payload, moves[..k]);
      assert Careful(c, Run(c, x0, moves[..k]), moves[k]);
      CarefulKeepsSound(c, Run(c, x0, moves[..k]), moves[k]);
    }
    SoundHands(c, Run(c, x0, moves));
  }

  /** Every undisturbed run from here on hands on only the payload being served. */
  ghost predicate SafeFrom(c: Config, x: Exchange)
    requires c.limit > 0
  {
    forall moves, d :: Undisturbed(c, x, moves) && d in Out(Run(c, x, moves)) ==> d == x.payload
  }

  lemma {:induction false} SoundIsSafe(c: Config, x: Exchange)
    requires c.limit > 0 && Sound(c, x)
    ensures SafeFrom(c, x)
  {
    SmallIsNumbered(x.payload, c.limit, c.token);
    forall moves, d | Undisturbed(c, x, moves) && d in Out(Run(c, x, moves)) ensures d == x.payload {
      UndisturbedIsGenuine(c, x, moves);
      AloneIsSafe(x.start, Run(c, x, moves).inputs, FragmentsOf(c, x.payload));
    }
  }

  /** A move that delivers only fragments of the present payload and queues none of more than 128 fragments. */
  ghost predicate Timely(c: Config, x: Exchange, move: Move)
    requires c.limit > 0
  {
    (move.Arrive? ==> move.frag in OnAir(x)) && (move.Requeue? ==> |move.payload| <= ID_MODULUS * c.limit)
  }

  /** Step i queues a payload that the buffer does not fit. */
  ghost predicate Misfit(c: Config, x: Exchange, moves: seq<Move>, i: nat)
    requires c.limit > 0 && i < |moves|
  {
    moves[i].Requeue? && !Fits(BufferOf(Run(c, x, moves[..i])), FragmentsOf(c, moves[i].payload))
  }

  /** In every run of any number of exchanges in which no fragment outlives its exchange: the enrollee is safe at every
      moment exactly when every payload was queued while the buffer fitted it. */
  lemma {:induction false} ManyExchangesIff(c: Config, payload: seq<byte>, moves: seq<Move>)
    requires c.limit > 0 && |payload| <= ID_MODULUS * c.limit
    requires forall i :: 0 <= i < |moves| ==> Timely(c, Run(c, First(c, payload), moves[..i]), moves[i])
    ensures (forall k :: 0 <= k <= |moves| ==> SafeFrom(c, Run(c, First(c, payload), moves[..k])))
            <==> (forall i :: 0 <= i < |moves| ==> !Misfit(c, First(c, payload), moves, i))
  {
    var x0 := First(c, payload);
    if forall i :: 0 <= i < |moves| ==> !Misfit(c, x0, moves, i) {
      forall k | 0 <= k <= |moves| ensures SafeFrom(c, Run(c, x0, moves[..k])) {
        forall i | 0 <= i < k ensures Careful(c, Run(c, x0, moves[..k][..i]), moves[..k][i]) {
          assert moves[..k][..i] == moves[..i] && !Misfit(c, x0, moves, i);
          assert Timely(c, Run(c, x0, moves[..i]), moves[i]);
        }
        ManyExchanges(c, payload, moves[..k]);
        SoundIsSafe(c, Run(c, x0, moves[..k]));
      }
    } else {
      var i :| 0 <= i < |moves| && Misfit(c, x0, moves, i);
      MisfitIsUnsafe(c, x0, moves, i);
      assert !SafeFrom(c, Run(c, x0, moves[..i + 1]));
    }
  }

  lemma {:induction false} MisfitIsUnsafe(c: Config, x0: Exchange, moves: seq<Move>, i: nat)
    requires c.limit > 0 && i < |moves| && Misfit(c, x0, moves, i) && Timely(c, Run(c, x0, moves[..i]), moves[i])
    ensures !SafeFrom(c, Run(c, x0, moves[..i + 1]))
  {
    var x := Run(c, x0, moves[..i]);
    assert moves[..i + 1] == moves[..i] + [moves[i]];
    RunSnoc(c, x0, moves[..i], moves[i]);
    RequeueIsSafeIff(c, x, moves[i].payload);
  }

  // -- Two runs that are not careful ----------------------------------------------------------------

  /** An exchange given up after its first fragment, and a second one: a payload made of both is handed on. */
  lemma {:induction false} AbandonedExchangeMixes(c: Config, p: seq<byte>, q: seq<byte>)
    requires c.limit > 0 && c.limit < |p| <= 2 * c.limit && c.limit < |q| <= 2 * c.limit
    ensures var fs, gs := FragmentsOf(c, p), FragmentsOf(c, q);
            |fs| == |gs| == 2 &&
            var x1 := Run(c, First(c, p), Lossless(fs, 1));
            var y := Run(c, Apply(c, x1, Requeue(q)), Lossless(gs, 2));
            AllHanded(y) == [Handed(p[..c.limit] + q[c.limit..], q)]
  {
    var fs, gs := FragmentsOf(c, p), FragmentsOf(c, q);
    TwoFragments(p, c.limit, c.token);
    TwoFragments(q, c.limit, c.token);
    var x1 := Run(c, First(c, p), Lossless(fs, 1));
    LosslessRun(c, First(c, p), 1, x1);
    OneAccepted(fs);
    assert AllHanded(x1) == [];
    var y := Run(c, Apply(c, x1, Requeue(q)), Lossless(gs, 2));
    LosslessRun(c, Apply(c, x1, Requeue(q)), 2, y);
    SmallIsNumbered(q, c.limit, c.token);
    InOrderFromBuffer(Buffer(fs[0].data, 1), gs);
    LastData(gs);
    assert Out(y) == [fs[0].data + gs[1].data];
  }

  lemma {:induction false} OneAccepted(fs: seq<Fragment>)
    requires |fs| == 2 && fs[0].id == 0 && fs[0].more
    ensures Alone(EMPTY, InOrder(fs, 1)) == Buffer(fs[0].data, 1) && AloneOut(EMPTY, InOrder(fs, 1)) == []
  {
    FirstAccepted(fs[0]);
    assert InOrder(fs, 0) == [] && InOrder(fs, 1) == [Input(fs[0], true)];
  }

  lemma {:induction false} LastData(gs: seq<Fragment>)
    requires |gs| == 2
    ensures Concat(gs[1..]) == gs[1].data
  {
    assert gs[1..] == [gs[1]] && [gs[1]][..0] == [];
  }

  /** A fragment that outlives its exchange is accepted by an empty buffer, and completed by the next payload. */
  lemma {:induction false} StaleFragmentMixes(c: Config, p: seq<byte>, q: seq<byte>)
    requires c.limit > 0 && c.limit < |p| <= 2 * c.limit && c.limit < |q| <= 2 * c.limit
    ensures var fs, gs := FragmentsOf(c, p), FragmentsOf(c, q);
            |fs| == |gs| == 2 &&
            var x1 := Apply(c, Apply(c, First(c, p), Request(true)), Requeue(q));
            var x2 := Apply(c, Apply(c, Apply(c, x1, Arrive(fs[0], true)), Request(true)), Request(true));
            BufferOf(x1) == EMPTY && AllHanded(Apply(c, x2, Arrive(gs[1], true)))
                == [Handed(p[..c.limit] + q[c.limit..], q)]
  {
    var fs, gs := FragmentsOf(c, p), FragmentsOf(c, q);
    TwoFragments(p, c.limit, c.token);
    TwoFragments(q, c.limit, c.token);
    var x0 := Apply(c, First(c, p), Request(true));
    assert x0.served == [Served(fs[0], true)] && Served(fs[0], true) in x0.served;
    var x1 := Apply(c, x0, Requeue(q));
    assert fs[0] in x1.stale && x1.before == [];
    var i, j := Input(fs[0], true), Input(gs[1], true);
    var x2 := Apply(c, Apply(c, Apply(c, x1, Arrive(fs[0], true)), Request(true)), Request(true));
    assert x2 == x1.(queue := [], served := [Served(gs[0], true), Served(gs[1], true)], inputs := [i]);
    assert Served(gs[1], true) in x2.served;
    MixedOut(fs[0], gs[1]);
    var y := Apply(c, x2, Arrive(gs[1], true));
    assert y.inputs == [i] + [j];
  }

  lemma {:induction false} FirstAccepted(f: Fragment)
    requires f.id == 0 && f.more
    ensures Alone(EMPTY, [Input(f, true)]) == Buffer(f.data, 1) && AloneOut(EMPTY, [Input(f, true)]) == []
  {
    AloneSnoc(EMPTY, [], Input(f, true));
    assert [] + [Input(f, true)] == [Input(f, true)] && [] + f.data == f.data;
  }

  lemma {:induction false} MixedOut(f: Fragment, g: Fragment)
    requires f.id == 0 && f.more && g.id == 1 && !g.more
    ensures AloneOut(EMPTY, [Input(f, true)] + [Input(g, true)]) == [f.data + g.data]
  {
    FirstAccepted(f);
    AloneSnoc(EMPTY, [Input(f, true)], Input(g, true));
    assert Next(Buffer(f.data, 1), g, true).1 == Some(f.data + g.data);
  }
}
