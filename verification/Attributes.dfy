/** The DPP attribute codec: little-endian id, little-endian length, data, one after the other. */
module Attributes {
  import opened Base

  type u16 = x: int | 0 <= x < 0x10000

  datatype Attribute = Attribute(id: u16, data: seq<byte>)

  type Attr = a: Attribute | |a.data| < 0x10000 witness Attribute(0, [])

  const HEADER: nat := 4

  function Le16(x: u16): (r: seq<byte>)
    ensures |r| == 2 && FromLe16(r[0], r[1]) == x
  {
    [x % 256, x / 256]
  }

  function FromLe16(lo: byte, hi: byte): u16 { lo + 256 * hi }

  function EncodeAttr(a: Attr): (r: seq<byte>)
    ensures |r| == HEADER + |a.data|
    ensures FromLe16(r[0], r[1]) == a.id && FromLe16(r[2], r[3]) == |a.data| && r[HEADER..] == a.data
  {
    Le16(a.id) + Le16(|a.data|) + a.data
  }

  function Encode(attrs: seq<Attr>): seq<byte> {
    if attrs == [] then [] else EncodeAttr(attrs[0]) + Encode(attrs[1..])
  }

  // -- Parsing --------------------------------------------------------------------------------------

  function IdAt(b: seq<byte>, off: nat): u16
    requires off + HEADER <= |b|
  {
    FromLe16(b[off], b[off + 1])
  }

  function LengthAt(b: seq<byte>, off: nat): u16
    requires off + HEADER <= |b|
  {
    FromLe16(b[off + 2], b[off + 3])
  }

  /** An attribute starts here and ends inside the buffer. */
  predicate WholeAt(b: seq<byte>, off: nat) {
    off + HEADER <= |b| && off + HEADER + LengthAt(b, off) <= |b|
  }

  function AttrAt(b: seq<byte>, off: nat): Attr
    requires WholeAt(b, off)
  {
    Attribute(IdAt(b, off), b[off + HEADER..off + HEADER + LengthAt(b, off)])
  }

  /** The attributes that lie completely inside the buffer, from an offset on, and where the last one ends. */
  function Whole(b: seq<byte>, off: nat): seq<Attr>
    decreases |b| - off
  {
    if !WholeAt(b, off) then [] else [AttrAt(b, off)] + Whole(b, off + HEADER + LengthAt(b, off))
  }

  function End(b: seq<byte>, off: nat): (end: nat)
    requires off <= |b|
    ensures off <= end <= |b| && !WholeAt(b, end)
    decreases |b| - off
  {
    if !WholeAt(b, off) then off else End(b, off + HEADER + LengthAt(b, off))
  }

  predicate WellFormed(b: seq<byte>) { End(b, 0) == |b| }

  lemma {:induction false} WholeIsWhatIsThere(b: seq<byte>, off: nat)
    requires off <= |b|
    ensures b[off..End(b, off)] == Encode(Whole(b, off))
    decreases |b| - off
  {
    if WholeAt(b, off) {
      var next := off + HEADER + LengthAt(b, off);
      WholeIsWhatIsThere(b, next);
      HeaderBytes(b, off);
      EncodeCons(AttrAt(b, off), Whole(b, next));
      assert b[off..End(b, next)] == b[off..next] + b[next..End(b, next)];
    }
  }

  lemma {:induction false} EncodeCons(a: Attr, rest: seq<Attr>)
    ensures Encode([a] + rest) == EncodeAttr(a) + Encode(rest)
  {
    assert ([a] + rest)[1..] == rest;
  }

  lemma {:induction false} Le16Inverse(lo: byte, hi: byte)
    ensures Le16(FromLe16(lo, hi)) == [lo, hi]
  {
  }

  lemma {:induction false} HeaderBytes(b: seq<byte>, off: nat)
    requires WholeAt(b, off)
    ensures b[off..off + HEADER + LengthAt(b, off)] == EncodeAttr(AttrAt(b, off))
  {
    Le16Inverse(b[off], b[off + 1]);
    Le16Inverse(b[off + 2], b[off + 3]);
    var end := off + HEADER + LengthAt(b, off);
    assert b[off..end] == [b[off], b[off + 1]] + [b[off + 2], b[off + 3]] + b[off + HEADER..end];
  }

  /** An encoded attribute is read back wherever it stands. */
  lemma {:induction false} AttrInPlace(b: seq<byte>, pre: seq<byte>, a: Attr, post: seq<byte>)
    requires b == pre + EncodeAttr(a) + post
    ensures WholeAt(b, |pre|) && IdAt(b, |pre|) == a.id && LengthAt(b, |pre|) == |a.data| && AttrAt(b, |pre|) == a
  {
    var e := EncodeAttr(a);
    assert b[|pre|] == e[0] && b[|pre| + 1] == e[1] && b[|pre| + 2] == e[2] && b[|pre| + 3] == e[3];
    assert b[|pre| + HEADER..|pre| + |e|] == e[HEADER..];
  }

  /** Decoding after encoding. */
  lemma {:induction false} EncodeRoundTrip(pre: seq<byte>, attrs: seq<Attr>, b: seq<byte>)
    requires b == pre + Encode(attrs)
    ensures Whole(b, |pre|) == attrs && End(b, |pre|) == |b|
    decreases |attrs|
  {
    if attrs != [] {
      var e := EncodeAttr(attrs[0]);
      assert b == pre + e + Encode(attrs[1..]);
      EncodeRoundTrip(pre + e, attrs[1..], b);
      AttrInPlace(b, pre, attrs[0], Encode(attrs[1..]));
    }
  }

  /** Buffers that attribute lists encode to are exactly the well-formed ones, and the list is unique. */
  lemma {:induction false} CodecIsBijective(b: seq<byte>, attrs: seq<Attr>)
    ensures b == Encode(attrs) <==> WellFormed(b) && Whole(b, 0) == attrs
  {
    WholeIsWhatIsThere(b, 0);
    EncodeRoundTrip([], attrs, Encode(attrs));
    assert b[0..|b|] == b;
  }

  lemma {:induction false} EncodeAppend(xs: seq<Attr>, ys: seq<Attr>)
    ensures Encode(xs + ys) == Encode(xs) + Encode(ys)
  {
    if xs == [] {
      assert xs + ys == ys;
    } else {
      var a, rest := xs[0], xs[1..];
      EncodeAppend(rest, ys);
      Uncons(xs, ys, a, rest);
      EncodeCons(a, rest);
      EncodeCons(a, rest + ys);
      Assoc(EncodeAttr(a), Encode(rest), Encode(ys));
    }
  }

  lemma {:induction false} Uncons(xs: seq<Attr>, ys: seq<Attr>, a: Attr, rest: seq<Attr>)
    requires xs != [] && a == xs[0] && rest == xs[1..]
    ensures xs == [a] + rest && xs + ys == [a] + (rest + ys)
  {
  }

  lemma {:induction false} Assoc(x: seq<byte>, y: seq<byte>, z: seq<byte>)
    ensures x + (y + z) == (x + y) + z
  {
  }

  lemma {:induction false} EncodeOne(a: Attr)
    ensures Encode([a]) == EncodeAttr(a)
  {
    assert Encode([a][1..]) == [];
  }

  // -- add_attrib -----------------------------------------------------------------------------------

  /** add_attrib: `data` is None for a null pointer, with `len` whatever the caller passed. */
  method AddAttrib(buff: seq<byte>, id: u16, len: u16, data: Option<seq<byte>>) returns (r: seq<byte>)
    requires data.Some? ==> |data.value| == len
    ensures r == if data.Some? && len != 0 then buff + Encode([Attribute(id, data.value)]) else buff
    ensures data.Some? && len != 0 ==> r == buff + [id % 256, id / 256, len % 256, len / 256] + data.value
  {
    var grown := Le16(id) + Le16(len);
    r := buff;
    if data.Some? && len != 0 {
      grown := grown + data.value;
      r := r + grown;
      EncodeOne(Attribute(id, data.value));
    }
  }

  function Kept(attrs: seq<Attr>): seq<Attr> {
    if attrs == [] then [] else
    var a := attrs[|attrs| - 1];
    Kept(attrs[..|attrs| - 1]) + if a.data == [] then [] else [a]
  }

  function TotalSize(attrs: seq<Attr>): nat {
    if attrs == [] then 0 else HEADER + |attrs[0].data| + TotalSize(attrs[1..])
  }

  lemma {:induction false} EncodeSize(attrs: seq<Attr>)
    ensures |Encode(attrs)| == TotalSize(attrs)
  {
    if attrs != [] { EncodeSize(attrs[1..]); }
  }

  /** Any sequence of add_attrib calls from an empty buffer yields the encoding of the attributes that had data;
      its length is the sum of their sizes. */
  method AddAll(attrs: seq<Attr>) returns (b: seq<byte>)
    ensures b == Encode(Kept(attrs)) && |b| == TotalSize(Kept(attrs))
  {
    b := [];
    for i := 0 to |attrs|
      invariant b == Encode(Kept(attrs[..i]))
    {
      b := AddAttrib(b, attrs[i].id, |attrs[i].data|, Some(attrs[i].data));
      KeptSnoc(attrs, i);
    }
    assert attrs[..|attrs|] == attrs;
    EncodeSize(Kept(attrs));
  }

  lemma {:induction false} KeptSnoc(attrs: seq<Attr>, i: nat)
    requires i < |attrs|
    ensures Encode(Kept(attrs[..i + 1]))
         == Encode(Kept(attrs[..i])) + if attrs[i].data == [] then [] else Encode([attrs[i]])
  {
    var one := attrs[..i + 1];
    assert one[..|one| - 1] == attrs[..i] && one[|one| - 1] == attrs[i];
    var kept := Kept(attrs[..i]);
    if attrs[i].data != [] {
      assert Kept(one) == kept + [attrs[i]];
      EncodeAppend(kept, [attrs[i]]);
    } else {
      assert Kept(one) == kept;
    }
  }

  lemma {:induction false} KeptAtMost(attrs: seq<Attr>)
    ensures |Kept(attrs)| <= |attrs|
  {
    if attrs != [] { KeptAtMost(attrs[..|attrs| - 1]); }
  }

  lemma {:induction false} KeptAll(attrs: seq<Attr>)
    requires forall i :: 0 <= i < |attrs| ==> attrs[i].data != []
    ensures Kept(attrs) == attrs
  {
    if attrs != [] {
      var k := |attrs| - 1;
      KeptAll(attrs[..k]);
      assert attrs == attrs[..k] + [attrs[k]];
    }
  }

  lemma {:induction false} KeptFewer(attrs: seq<Attr>, i: nat)
    requires i < |attrs| && attrs[i].data == []
    ensures |Kept(attrs)| < |attrs|
  {
    var k := |attrs| - 1;
    if i < k {
      KeptFewer(attrs[..k], i);
    } else {
      KeptAtMost(attrs[..k]);
    }
  }

  /** No attribute is lost exactly when none was added with empty data. */
  lemma {:induction false} NothingLost(attrs: seq<Attr>)
    ensures Kept(attrs) == attrs <==> forall i :: 0 <= i < |attrs| ==> attrs[i].data != []
    ensures |Kept(attrs)| <= |attrs|
  {
    KeptAtMost(attrs);
    if i :| 0 <= i < |attrs| && attrs[i].data == [] {
      KeptFewer(attrs, i);
    } else {
      KeptAll(attrs);
    }
  }

  // -- get_attrib -----------------------------------------------------------------------------------

  /** `Overrun` stands for a read of a header beyond the end of the buffer, which the source does not prevent. */
  datatype Found = Missing | At(offset: nat, length: u16) | Overrun

  /** The first attribute with an id, by its number and by its offset in the encoding. */
  function FirstWith(attrs: seq<Attr>, id: u16): nat
    ensures FirstWith(attrs, id) <= |attrs|
  {
    if attrs == [] || attrs[0].id == id then 0 else 1 + FirstWith(attrs[1..], id)
  }

  function Scan(b: seq<byte>, id: u16, off: nat): Found
    decreases |b| - off
  {
    if off >= |b| then Missing
    else if off + HEADER > |b| then Overrun
    else if IdAt(b, off) == id then At(off, LengthAt(b, off))
    else Scan(b, id, off + HEADER + LengthAt(b, off))
  }

  method GetAttrib(b: seq<byte>, id: u16) returns (r: Found)
    ensures r == Scan(b, id, 0)
  {
    if |b| == 0 {
      return Missing;
    }
    var total := 0;
    while total < |b|
      invariant Scan(b, id, 0) == Scan(b, id, total)
      decreases |b| - total
    {
      if total + HEADER > |b| {
        return Overrun;
      }
      var currId, currLen := IdAt(b, total), LengthAt(b, total);
      var attrLen := HEADER + currLen;
      if currId == id {
        return At(total, currLen);
      }
      total := total + attrLen;
    }
    return Missing;
  }

  /** The attribute that was found, if any, lies inside the buffer. */
  predicate InBounds(b: seq<byte>, r: Found) {
    r != Overrun && (r.At? ==> r.offset + HEADER + r.length <= |b|)
  }

  lemma {:induction false} FirstWithIsFirst(attrs: seq<Attr>, id: u16)
    ensures var k := FirstWith(attrs, id);
            (k < |attrs| ==> attrs[k].id == id) && forall i :: 0 <= i < k ==> attrs[i].id != id
  {
    if attrs != [] { FirstWithIsFirst(attrs[1..], id); }
  }

  /** Where the first attribute with an id is found in an encoded list, from an offset on. */
  function Place(attrs: seq<Attr>, id: u16, off: nat): Found {
    var k := FirstWith(attrs, id);
    if k < |attrs| then At(off + TotalSize(attrs[..k]), |attrs[k].data|) else Missing
  }

  lemma {:induction false} PlaceCons(a: Attr, rest: seq<Attr>, id: u16, off: nat)
    ensures Place([a] + rest, id, off)
         == if a.id == id then At(off, |a.data|) else Place(rest, id, off + HEADER + |a.data|)
  {
    var attrs := [a] + rest;
    assert attrs[1..] == rest;
    if a.id != id { SizeCons(a, rest, FirstWith(rest, id)); }
  }

  /** In an encoded list the scan finds the first attribute with the id and no other, and finds none exactly when no
      attribute has the id (see FirstWithIsFirst). */
  lemma {:induction false} ScanFindsFirst(pre: seq<byte>, attrs: seq<Attr>, id: u16, b: seq<byte>)
    requires b == pre + Encode(attrs)
    ensures Scan(b, id, |pre|) == Place(attrs, id, |pre|)
    decreases |attrs|
  {
    if attrs != [] {
      var a, rest := attrs[0], attrs[1..];
      Uncons(attrs, [], a, rest);
      EncodeCons(a, rest);
      Assoc(pre, EncodeAttr(a), Encode(rest));
      ScanFindsFirst(pre + EncodeAttr(a), rest, id, b);
      ScanStep(b, pre, id, a, Encode(rest));
      PlaceCons(a, rest, id, |pre|);
    }
  }

  lemma {:induction false} ScanStep(b: seq<byte>, pre: seq<byte>, id: u16, a: Attr, post: seq<byte>)
    requires b == pre + EncodeAttr(a) + post
    ensures Scan(b, id, |pre|)
         == if a.id == id then At(|pre|, |a.data|) else Scan(b, id, |pre + EncodeAttr(a)|)
  {
    AttrInPlace(b, pre, a, post);
  }

  lemma {:induction false} SizeCons(a: Attr, rest: seq<Attr>, k: nat)
    requires k <= |rest|
    ensures TotalSize(([a] + rest)[..k + 1]) == HEADER + |a.data| + TotalSize(rest[..k])
  {
    assert ([a] + rest)[..k + 1] == [a] + rest[..k];
    assert ([a] + rest[..k])[1..] == rest[..k];
  }

  /** The bytes of attribute k of an encoded list. */
  lemma {:induction false} BytesOf(attrs: seq<Attr>, k: nat, b: seq<byte>)
    requires k < |attrs| && b == Encode(attrs)
    ensures var off := TotalSize(attrs[..k]);
            && off + HEADER + |attrs[k].data| <= |b| && b[off + HEADER..off + HEADER + |attrs[k].data|] == attrs[k].data
            && b[..off] == Encode(attrs[..k])
  {
    var xs, ys := attrs[..k], attrs[k..];
    EncodeSize(xs);
    EncodeAppend(xs, ys);
    assert xs + ys == attrs;
    SplitFirst(Encode(xs), ys, b);
  }

  lemma {:induction false} SplitFirst(pre: seq<byte>, ys: seq<Attr>, b: seq<byte>)
    requires ys != [] && b == pre + Encode(ys)
    ensures |pre| + HEADER + |ys[0].data| <= |b| && b[|pre| + HEADER..|pre| + HEADER + |ys[0].data|] == ys[0].data
    ensures b[..|pre|] == pre
  {
    var e, post := EncodeAttr(ys[0]), Encode(ys[1..]);
    Assoc(pre, e, post);
    AttrInPlace(b, pre, ys[0], post);
  }

  /** Reading back.  After any add_attrib calls, get_attrib returns the bytes of the first attribute added under
      the id with data, or nothing if there was none, and never leaves the buffer. */
  lemma {:induction false} GetAfterAdd(attrs: seq<Attr>, id: u16)
    ensures var b, kept := Encode(Kept(attrs)), Kept(attrs);
            var r, k := Scan(b, id, 0), FirstWith(kept, id);
            && InBounds(b, r)
            && (r == Missing <==> k == |kept|)
            && (k < |kept| ==> r.At? && kept[k].id == id)
            && (k < |kept| ==> b[r.offset + HEADER..r.offset + HEADER + r.length] == kept[k].data)
  {
    GetFrom(Kept(attrs), id, Encode(Kept(attrs)));
  }

  lemma {:induction false} GetFrom(attrs: seq<Attr>, id: u16, b: seq<byte>)
    requires b == Encode(attrs)
    ensures var r, k := Scan(b, id, 0), FirstWith(attrs, id);
            && InBounds(b, r)
            && (r == Missing <==> k == |attrs|)
            && (k < |attrs| ==> r.At? && attrs[k].id == id)
            && (k < |attrs| ==> b[r.offset + HEADER..r.offset + HEADER + r.length] == attrs[k].data)
  {
    ScanFindsFirst([], attrs, id, b);
    FirstWithIsFirst(attrs, id);
    var k := FirstWith(attrs, id);
    if k < |attrs| { BytesOf(attrs, k, b); }
  }

  /** On an arbitrary buffer the scan stays in bounds exactly when the buffer is well-formed or the id occurs in
      the part of it that is. */
  lemma {:induction false} ScanInBounds(b: seq<byte>, id: u16, off: nat)
    requires off <= |b|
    ensures InBounds(b, Scan(b, id, off)) <==>
            End(b, off) == |b| || FirstWith(Whole(b, off), id) < |Whole(b, off)| || SkipsOut(b, id, off)
    decreases |b| - off
  {
    if WholeAt(b, off) {
      var next := off + HEADER + LengthAt(b, off);
      ScanInBounds(b, id, next);
      assert Whole(b, off)[1..] == Whole(b, next);
    }
  }

  /** The one way to get past a malformed end unharmed: its header is complete, has another id, and the length it
      claims leads the scan beyond the end. */
  predicate SkipsOut(b: seq<byte>, id: u16, off: nat)
    requires off <= |b|
  {
    var end := End(b, off);
    end + HEADER <= |b| && IdAt(b, end) != id
  }
}
