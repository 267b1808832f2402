/** Fragmentation of a large configuration response by the proxy agent into GAS Comeback Responses. */
module Fragmentation {
  import opened Base

  /** The fields of ec_gas_comeback_response_frame_t that the enrollee reads. */
  datatype Fragment = Fragment(token: byte, id: nat, more: bool, data: seq<byte>)

  /** The fragment limit of the source. */
  const WIFI_MTU_SIZE: nat := 1400

  /** The id field has seven bits. */
  const ID_MODULUS: nat := 128

  /** The fragments of the rest of a payload, numbered from i. */
  function FragmentsFrom(rest: seq<byte>, limit: nat, token: byte, i: nat): seq<Fragment>
    requires limit > 0
  {
    if rest == [] then [] else
    var k := Min(limit, |rest|);
    [Fragment(token, i % ID_MODULUS, k < |rest|, rest[..k])] + FragmentsFrom(rest[k..], limit, token, i + 1)
  }

  function Fragments(payload: seq<byte>, limit: nat, token: byte): seq<Fragment>
    requires limit > 0
  {
    FragmentsFrom(payload, limit, token, 0)
  }

  /** The bytes of the fragments in order. */
  function Concat(fs: seq<Fragment>): seq<byte> {
    if fs == [] then [] else Concat(fs[..|fs| - 1]) + fs[|fs| - 1].data
  }

  /** The next fragment of a payload of which `offset` bytes are done. */
  lemma {:induction false} NextFragment(payload: seq<byte>, offset: nat, limit: nat, token: byte, i: nat)
    requires limit > 0 && offset < |payload|
    ensures var k := Min(limit, |payload| - offset);
            FragmentsFrom(payload[offset..], limit, token, i)
            == [Fragment(token, i % ID_MODULUS, offset + k < |payload|, payload[offset..offset + k])]
               + FragmentsFrom(payload[offset + k..], limit, token, i + 1)
  {
    var k := Min(limit, |payload| - offset);
    var rest := payload[offset..];
    assert payload[offset..offset + k] == rest[..k] && payload[offset + k..] == rest[k..];
  }

  /** One more fragment is done. */
  lemma {:induction false} MovesOn(payload: seq<byte>, offset: nat, limit: nat, token: byte, done: seq<Fragment>,
      f: Fragment, all: seq<Fragment>)
    requires limit > 0 && offset < |payload|
    requires done + FragmentsFrom(payload[offset..], limit, token, |done|) == all
    requires var k := Min(limit, |payload| - offset);
             f == Fragment(token, |done| % ID_MODULUS, offset + k < |payload|, payload[offset..offset + k])
    ensures var k := Min(limit, |payload| - offset);
            (done + [f]) + FragmentsFrom(payload[offset + k..], limit, token, |done| + 1) == all
  {
    NextFragment(payload, offset, limit, token, |done|);
  }

  lemma {:induction false} Mod256(x: nat, q: nat, r: nat)
    requires x == 256 * q + r && r < 256
    ensures x % 256 == r
  {
  }

  lemma {:induction false} Mod128(x: nat, q: nat, r: nat)
    requires x == 128 * q + r && r < 128
    ensures x % 128 == r
  {
  }

  /** The byte counter, masked to seven bits, counts modulo 128. */
  lemma {:induction false} ByteCounter(i: nat, r: nat)
    requires r == i % 256
    ensures (r + 1) % 256 == (i + 1) % 256 && r % 128 == i % 128
  {
    var q := i / 256;
    if r == 255 {
      Mod256(i + 1, q + 1, 0);
    } else {
      Mod256(i + 1, q, r + 1);
    }
    if r < 128 {
      Mod128(i, 2 * q, r);
    } else {
      Mod128(i, 2 * q + 1, r - 128);
    }
  }

  /** fragment_large_frame: `fragId` is a byte and `offset` walks the payload.  The limit of the source
      is WIFI_MTU_SIZE; any smaller one will do. */
  method FragmentLargeFrame(payload: seq<byte>, token: byte, limit: nat) returns (fragments: seq<Fragment>)
    requires 0 < limit <= WIFI_MTU_SIZE
    ensures fragments == Fragments(payload, limit, token)
  {
    fragments := [];
    var offset: nat := 0;
    var fragId: byte := 0;
    assert payload[0..] == payload;
    while offset < |payload|
      invariant offset <= |payload|
      invariant fragId == |fragments| % 256
      invariant fragments + FragmentsFrom(payload[offset..], limit, token, |fragments|)
        == Fragments(payload, limit, token)
    {
      ByteCounter(|fragments|, fragId);
      var chunkSize := Min(limit, |payload| - offset);
      var more := offset + chunkSize < |payload|;
      var f := Fragment(token, fragId % 128, more, payload[offset..offset + chunkSize]);
      MovesOn(payload, offset, limit, token, fragments, f, Fragments(payload, limit, token));
      fragments := fragments + [f];
      offset := offset + chunkSize;
      fragId := (fragId + 1) % 256;
    }
  }

  // -- Shape ----------------------------------------------------------------------------------------

  lemma {:induction false} ConcatCons(f: Fragment, fs: seq<Fragment>)
    ensures Concat([f] + fs) == f.data + Concat(fs)
  {
    if fs != [] {
      ConcatCons(f, fs[..|fs| - 1]);
      assert ([f] + fs)[..|fs|] == [f] + fs[..|fs| - 1];
    }
  }

  lemma {:induction false} ConcatSnoc(fs: seq<Fragment>, k: nat)
    requires k < |fs|
    ensures Concat(fs[..k + 1]) == Concat(fs[..k]) + fs[k].data
  {
    assert fs[..k + 1][..k] == fs[..k];
  }

  ghost predicate Shape(payload: seq<byte>, limit: nat, token: byte, i: nat, fs: seq<Fragment>) {
    && Concat(fs) == payload
    && (|payload| == 0 <==> |fs| == 0)
    && (forall j :: 0 <= j < |fs| ==>
          fs[j].token == token && fs[j].id == (i + j) % ID_MODULUS && (fs[j].more <==> j + 1 < |fs|))
    && (forall j :: 0 <= j < |fs| ==> 0 < |fs[j].data| <= limit && (fs[j].more ==> |fs[j].data| == limit))
  }

  lemma {:induction false} ShapeFrom(rest: seq<byte>, limit: nat, token: byte, i: nat)
    requires limit > 0
    ensures Shape(rest, limit, token, i, FragmentsFrom(rest, limit, token, i))
    decreases |rest|
  {
    if rest != [] {
      var k := Min(limit, |rest|);
      ShapeFrom(rest[k..], limit, token, i + 1);
      ShapeCons(rest, limit, token, i, k, FragmentsFrom(rest[k..], limit, token, i + 1));
    }
  }

  lemma {:induction false} ShapeCons(rest: seq<byte>, limit: nat, token: byte, i: nat, k: nat, fs: seq<Fragment>)
    requires 0 < limit && rest != [] && k == Min(limit, |rest|) && Shape(rest[k..], limit, token, i + 1, fs)
    ensures Shape(rest, limit, token, i, [Fragment(token, i % ID_MODULUS, k < |rest|, rest[..k])] + fs)
  {
    var f := Fragment(token, i % ID_MODULUS, k < |rest|, rest[..k]);
    var gs := [f] + fs;
    ConcatCons(f, fs);
    assert rest == rest[..k] + rest[k..];
    forall j | 0 <= j < |gs|
      ensures gs[j].token == token && gs[j].id == (i + j) % ID_MODULUS && (gs[j].more <==> j + 1 < |gs|)
      ensures 0 < |gs[j].data| <= limit && (gs[j].more ==> |gs[j].data| == limit)
    {
      if j > 0 {
        assert gs[j] == fs[j - 1];
        assert i + 1 + (j - 1) == i + j;
      }
    }
  }

  /** The fragments concatenate to the payload, each but the last is full and none is empty, ids count up from
      0 in the seven-bit field, and only the last has more_fragments clear. */
  lemma {:induction false} FragmentsShape(payload: seq<byte>, limit: nat, token: byte)
    requires limit > 0
    ensures Shape(payload, limit, token, 0, Fragments(payload, limit, token))
  {
    ShapeFrom(payload, limit, token, 0);
  }

  lemma {:induction false} CountFrom(rest: seq<byte>, limit: nat, token: byte, i: nat, n: nat)
    requires limit > 0
    ensures |FragmentsFrom(rest, limit, token, i)| <= n <==> |rest| <= n * limit
    decreases n
  {
    if n > 0 && rest != [] {
      var k := Min(limit, |rest|);
      CountFrom(rest[k..], limit, token, i + 1, n - 1);
      assert n * limit == (n - 1) * limit + limit;
    }
  }

  /** At most n fragments are needed exactly when the payload has at most n times the limit bytes. */
  lemma {:induction false} FragmentCount(payload: seq<byte>, limit: nat, token: byte, n: nat)
    requires limit > 0
    ensures |Fragments(payload, limit, token)| <= n <==> |payload| <= n * limit
  {
    CountFrom(payload, limit, token, 0, n);
  }

  ghost predicate DistinctIds(fs: seq<Fragment>) {
    forall i, j :: 0 <= i < j < |fs| ==> fs[i].id != fs[j].id
  }

  /** The ids of the fragments of a payload are distinct exactly when it has at most 128 times the limit
      bytes, that is, when there are at most 128 fragments. */
  lemma {:induction false} IdsDistinct(payload: seq<byte>, limit: nat, token: byte)
    requires limit > 0
    ensures DistinctIds(Fragments(payload, limit, token)) <==> |payload| <= ID_MODULUS * limit
  {
    var fs := Fragments(payload, limit, token);
    FragmentsShape(payload, limit, token);
    FragmentCount(payload, limit, token, ID_MODULUS);
    if |fs| > ID_MODULUS {
      assert fs[0].id == fs[128].id;
    }
  }
}
