/** Wrapped data: the attributes of a DPP frame that are encrypted with AES-SIV, with the frame header and the
    attributes in front of them as associated data. */
module WrappedData {
  import opened Base
  import opened Attributes

  const WRAPPED: u16 := 0x1004
  const AES_BLOCK_SIZE: nat := 16

  type Aad = seq<seq<byte>>

  /** AES-SIV under a fixed key: the tag and the ciphertext, and decryption or failure. */
  type Seal = (Aad, seq<byte>) -> (seq<byte>, seq<byte>)
  type Open = (Aad, seq<byte>, seq<byte>) -> Option<seq<byte>>

  /** All that is assumed of it: lengths, and that decryption inverts encryption under equal associated data. */
  ghost predicate IsSiv(seal: Seal, open: Open) { forall aad, p :: SealsAndOpens(seal, open, aad, p) }

  predicate SealsAndOpens(seal: Seal, open: Open, aad: Aad, p: seq<byte>) {
    var (tag, cipher) := seal(aad, p);
    |tag| == AES_BLOCK_SIZE && |cipher| == |p| && open(aad, tag, cipher) == Some(p)
  }

  /** A frame that is absent or empty is left out of the associated data. */
  function AadOf(frame: Option<seq<byte>>, attribs: seq<byte>, useAad: bool): Aad {
    if !useAad then [] else if frame == None || frame.value == [] then [attribs] else [frame.value, attribs]
  }

  /** add_wrapped_data_attr: `attribs` is None for a null pointer.  None is also the result where the 16-bit length
      of the wrapped attribute would overflow and the source would write beyond what it allocated. */
  method AddWrapped(seal: Seal, frame: Option<seq<byte>>, attribs: Option<seq<byte>>, useAad: bool, inner: seq<byte>)
    returns (r: Option<seq<byte>>)
    ensures r == Wrap(seal, frame, attribs, useAad, inner)
    ensures |inner| + 16 >= 0x10000 || (useAad && attribs == None) ==> r == None
    ensures |inner| + 16 < 0x10000 && (useAad ==> attribs.Some?) ==>
              var base := if attribs == None then [] else attribs.value;
              var (tag, cipher) := seal(if !useAad then [] else if frame.Some? && frame.value != []
                                        then [frame.value, base] else [base], inner);
              var n := |tag + cipher|;
              0 < n < 0x10000 ==> r == Some(base + [0x04, 0x10, n % 256, n / 256] + (tag + cipher))
  {
    if |inner| + AES_BLOCK_SIZE >= 0x10000 {
      return None;
    }
    if useAad && attribs == None {
      return None;
    }
    var base := if attribs == None then [] else attribs.value;
    var (tag, cipher) := seal(AadOf(frame, base, useAad), inner);
    if |tag + cipher| >= 0x10000 {
      return None;
    }
    var b := AddAttrib(base, WRAPPED, |tag + cipher|, Some(tag + cipher));
    return Some(b);
  }

  function Wrap(seal: Seal, frame: Option<seq<byte>>, attribs: Option<seq<byte>>, useAad: bool,
      inner: seq<byte>): Option<seq<byte>> {
    var base := if attribs == None then [] else attribs.value;
    var (tag, cipher) := seal(AadOf(frame, base, useAad), inner);
    if |inner| + AES_BLOCK_SIZE >= 0x10000 || (useAad && attribs == None) || |tag + cipher| >= 0x10000 then None
    else if tag + cipher == [] then Some(base)
    else Some(base + Encode([Attribute(WRAPPED, tag + cipher)]))
  }

  /** get_attrib for the wrapped attribute followed by unwrap_wrapped_attrib, as every receiver calls them.  The
      associated data is recovered from where the wrapped attribute was found. */
  method Unwrap(open: Open, frame: Option<seq<byte>>, b: seq<byte>, useAad: bool) returns (r: Option<seq<byte>>)
    ensures r == Unwrapped(open, frame, b, useAad)
    ensures var found := Scan(b, 0x1004, 0);
            if !found.At? || found.offset + 4 + found.length > |b| || found.length < 16 then r == None else
            var before, data := b[..found.offset], b[found.offset + 4..found.offset + 4 + found.length];
            r == open(if !useAad then [] else if frame.Some? && frame.value != [] then [frame.value, before]
                      else [before], data[..16], data[16..])
  {
    var found := GetAttrib(b, WRAPPED);
    if !found.At? || !InBounds(b, found) || found.length < AES_BLOCK_SIZE {
      return None;
    }
    var data := found.offset + HEADER;
    var before := b[..found.offset];
    var tag, cipher := b[data..data + AES_BLOCK_SIZE], b[data + AES_BLOCK_SIZE..data + found.length];
    assert b[data..data + found.length] == tag + cipher;
    r := open(AadOf(frame, before, useAad), tag, cipher);
  }

  function Unwrapped(open: Open, frame: Option<seq<byte>>, b: seq<byte>, useAad: bool): Option<seq<byte>> {
    var found := Scan(b, WRAPPED, 0);
    if !found.At? || !InBounds(b, found) || found.length < AES_BLOCK_SIZE then None else
    var data := found.offset + HEADER;
    open(AadOf(frame, b[..found.offset], useAad), b[data..data + AES_BLOCK_SIZE],
        b[data + AES_BLOCK_SIZE..data + found.length])
  }

  /** The associated data as the receiver recovers it. */
  function ReceiverAad(frame: Option<seq<byte>>, b: seq<byte>): Option<Aad> {
    var found := Scan(b, WRAPPED, 0);
    if !found.At? || found.offset > |b| then None else Some(AadOf(frame, b[..found.offset], true))
  }

  predicate HasWrapped(attrs: seq<Attr>) { exists a :: a in attrs && a.id == WRAPPED }

  lemma {:induction false} FirstWrapped(outer: seq<Attr>, w: Attr, after: seq<Attr>)
    requires w.id == WRAPPED
    ensures var all := outer + [w] + after;
            FirstWith(all, WRAPPED) <= |outer| && (FirstWith(all, WRAPPED) == |outer| <==> !HasWrapped(outer))
    decreases |outer|
  {
    var all := outer + [w] + after;
    if outer != [] {
      assert all[1..] == outer[1..] + [w] + after;
      FirstWrapped(outer[1..], w, after);
      assert HasWrapped(outer) <==> outer[0].id == WRAPPED || HasWrapped(outer[1..]);
    }
  }

  /** What the scan for the wrapped attribute finds in an encoded list that has one. */
  lemma {:induction false} FoundAt(all: seq<Attr>, k: nat, b: seq<byte>)
    requires b == Encode(all) && k == FirstWith(all, WRAPPED) < |all|
    ensures var r := Scan(b, WRAPPED, 0);
            && r.At? && InBounds(b, r) && r.length == |all[k].data|
            && b[..r.offset] == Encode(all[..k]) && b[r.offset + HEADER..r.offset + HEADER + r.length] == all[k].data
  {
    ScanFindsFirst([], all, WRAPPED, b);
    BytesOf(all, k, b);
  }

  /** The receiver recovers the sender's associated data exactly when the sender put no wrapped attribute among the
      outer attributes, whatever attributes follow. */
  lemma {:induction false} AadRecovered(frame: Option<seq<byte>>, outer: seq<Attr>, w: Attr, after: seq<Attr>)
    requires w.id == WRAPPED
    ensures ReceiverAad(frame, Encode(outer + [w] + after)) == Some(AadOf(frame, Encode(outer), true))
      <==> !HasWrapped(outer)
  {
    var all := outer + [w] + after;
    var b := Encode(all);
    var k := FirstWith(all, WRAPPED);
    FirstWrapped(outer, w, after);
    FoundAt(all, k, b);
    assert all[..k] == outer[..k];
    assert all[..|outer|] == outer;
    if k < |outer| { ShorterPrefix(outer, k); }
  }

  lemma {:induction false} ShorterPrefix(outer: seq<Attr>, k: nat)
    requires k < |outer|
    ensures |Encode(outer[..k])| < |Encode(outer)|
  {
    EncodeAppend(outer[..k], outer[k..]);
    assert outer[..k] + outer[k..] == outer;
  }

  /** The wrapped attribute as the sender appends it. */
  lemma {:induction false} WrapAppends(seal: Seal, frame: Option<seq<byte>>, outer: seq<Attr>, useAad: bool,
      p: seq<byte>, w: Attr)
    requires var (tag, cipher) := seal(AadOf(frame, Encode(outer), useAad), p);
             |tag| == AES_BLOCK_SIZE && |cipher| == |p| && w == Attribute(WRAPPED, tag + cipher)
    requires |p| + AES_BLOCK_SIZE < 0x10000
    ensures Wrap(seal, frame, Some(Encode(outer)), useAad, p) == Some(Encode(outer + [w]))
  {
    EncodeAppend(outer, [w]);
  }

  /** Wrapped-data round trip.  For every list of outer attributes without a wrapped one, every inner attribute list
      that fits, and whatever attributes are appended afterwards, the receiver recovers exactly the inner bytes,
      and from them exactly the inner list. */
  lemma {:induction false} WrappedRoundTrip(seal: Seal, open: Open, frame: Option<seq<byte>>, outer: seq<Attr>,
      useAad: bool, inner: seq<Attr>, after: seq<Attr>)
    requires IsSiv(seal, open) && |Encode(inner)| + AES_BLOCK_SIZE < 0x10000 && !HasWrapped(outer)
    ensures var sent := Wrap(seal, frame, Some(Encode(outer)), useAad, Encode(inner));
            sent.Some? && Unwrapped(open, frame, sent.value + Encode(after), useAad) == Some(Encode(inner))
    ensures WellFormed(Encode(inner)) && Whole(Encode(inner), 0) == inner
  {
    BytesRoundTrip(seal, open, frame, outer, useAad, Encode(inner), after);
    EncodeRoundTrip([], inner, Encode(inner));
  }

  lemma {:induction false} BytesRoundTrip(seal: Seal, open: Open, frame: Option<seq<byte>>, outer: seq<Attr>,
      useAad: bool, p: seq<byte>, after: seq<Attr>)
    requires IsSiv(seal, open) && |p| + AES_BLOCK_SIZE < 0x10000 && !HasWrapped(outer)
    ensures var sent := Wrap(seal, frame, Some(Encode(outer)), useAad, p);
            sent.Some? && Unwrapped(open, frame, sent.value + Encode(after), useAad) == Some(p)
  {
    var aad := AadOf(frame, Encode(outer), useAad);
    assert SealsAndOpens(seal, open, aad, p);
    var (tag, cipher) := seal(aad, p);
    var w := Attribute(WRAPPED, tag + cipher);
    WrapAppends(seal, frame, outer, useAad, p, w);
    EncodeAppend(outer + [w], after);
    UnwrapsTo(open, frame, outer, w, after, useAad, tag, cipher);
  }

  lemma {:induction false} UnwrapsTo(open: Open, frame: Option<seq<byte>>, outer: seq<Attr>, w: Attr,
      after: seq<Attr>, useAad: bool, tag: seq<byte>, cipher: seq<byte>)
    requires !HasWrapped(outer) && w == Attribute(WRAPPED, tag + cipher) && |tag| == AES_BLOCK_SIZE
    ensures Unwrapped(open, frame, Encode(outer + [w] + after), useAad)
      == open(AadOf(frame, Encode(outer), useAad), tag, cipher)
  {
    var all := outer + [w] + after;
    var b := Encode(all);
    FirstWrapped(outer, w, after);
    FoundAt(all, |outer|, b);
    assert all[..|outer|] == outer && all[|outer|] == w;
    var found := Scan(b, WRAPPED, 0);
    SplitData(b, found.offset + HEADER, tag, cipher);
  }

  lemma {:induction false} SplitData(b: seq<byte>, off: nat, tag: seq<byte>, cipher: seq<byte>)
    requires off + |tag| + |cipher| <= |b| && b[off..off + |tag| + |cipher|] == tag + cipher
    ensures b[off..off + |tag|] == tag && b[off + |tag|..off + |tag| + |cipher|] == cipher
  {
    var d := b[off..off + |tag| + |cipher|];
    assert b[off..off + |tag|] == d[..|tag|];
    assert b[off + |tag|..off + |tag| + |cipher|] == d[|tag|..];
  }

  /** Without outer attributes there is no buffer yet, and wrapping with associated data fails; without associated
      data the round trip holds from a null buffer too. */
  lemma {:induction false} WrappedFromNull(seal: Seal, open: Open, frame: Option<seq<byte>>, inner: seq<Attr>,
      after: seq<Attr>)
    requires IsSiv(seal, open) && |Encode(inner)| + AES_BLOCK_SIZE < 0x10000
    ensures Wrap(seal, frame, None, true, Encode(inner)) == None
    ensures var sent := Wrap(seal, frame, None, false, Encode(inner));
            sent.Some? && Unwrapped(open, frame, sent.value + Encode(after), false) == Some(Encode(inner))
  {
    WrappedRoundTrip(seal, open, frame, [], false, inner, after);
  }

  // -- What is authenticated ------------------------------------------------------------------------

  /** With a frame header on both sides, equal associated data means an equal header and equal attributes in front. */
  lemma {:induction false} AadBinds(frame: seq<byte>, attribs: seq<byte>, frame': seq<byte>, attribs': seq<byte>)
    requires frame != [] && frame' != []
    ensures AadOf(Some(frame), attribs, true) == AadOf(Some(frame'), attribs', true)
            <==> frame == frame' && attribs == attribs'
  {
    var x, y := AadOf(Some(frame), attribs, true), AadOf(Some(frame'), attribs', true);
    if x == y { assert x[0] == y[0] && x[1] == y[1]; }
  }

  lemma {:induction false} EncodeInjective(xs: seq<Attr>, ys: seq<Attr>)
    ensures Encode(xs) == Encode(ys) <==> xs == ys
  {
    EncodeRoundTrip([], xs, Encode(xs));
    EncodeRoundTrip([], ys, Encode(ys));
  }

  /** What was sealed under one associated data is refused under another. */
  predicate OpensNot(seal: Seal, open: Open, aad: Aad, aad': Aad, p: seq<byte>) {
    var (tag, cipher) := seal(aad, p);
    open(aad', tag, cipher) == None
  }

  /** Header and outer attributes are authenticated.  A wrapped attribute that was sealed for one header and one list of
      outer attributes, and arrives under any header and behind any list without a wrapped one, opens exactly when both
      are the ones it was sealed for; all that is assumed is that AES-SIV tells these two apart where they differ. */
  lemma {:induction false} HeaderAuthenticated(seal: Seal, open: Open, frame: seq<byte>, outer: seq<Attr>,
      inner: seq<byte>, frame': seq<byte>, outer': seq<Attr>, after: seq<Attr>, sent: seq<byte>)
    requires IsSiv(seal, open) && |inner| + AES_BLOCK_SIZE < 0x10000
    requires frame != frame' || outer != outer' ==>
               OpensNot(seal, open, [frame, Encode(outer)], [frame', Encode(outer')], inner)
    requires frame != [] && frame' != [] && !HasWrapped(outer')
    requires Wrap(seal, Some(frame), Some(Encode(outer)), true, inner) == Some(Encode(outer) + sent)
    ensures Unwrapped(open, Some(frame'), Encode(outer') + sent + Encode(after), true)
         == if frame' == frame && outer' == outer then Some(inner) else None
  {
    var aad, aad' := AadOf(Some(frame), Encode(outer), true), AadOf(Some(frame'), Encode(outer'), true);
    assert SealsAndOpens(seal, open, aad, inner);
    var (tag, cipher) := seal(aad, inner);
    var w := Attribute(WRAPPED, tag + cipher);
    WrapAppends(seal, Some(frame), outer, true, inner, w);
    EncodeAppend(outer, [w]);
    assert sent == (Encode(outer) + sent)[|Encode(outer)|..] == Encode([w]);
    EncodeAppend(outer', [w]);
    EncodeAppend(outer' + [w], after);
    UnwrapsTo(open, Some(frame'), outer', w, after, true, tag, cipher);
    AadBinds(frame, Encode(outer), frame', Encode(outer'));
    EncodeInjective(outer, outer');
  }
}
