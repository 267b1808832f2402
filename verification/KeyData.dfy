/** The key data field of EAPOL-Key frames: appending, padding for AES key wrap, and unpadding. */
module KeyData {
  import opened Base

  const PAD: byte := 0xDD

  // -- Padding --------------------------------------------------------------------------------------

  predicate NeedsPad(d: seq<byte>) { |d| % 8 != 0 || |d| < 16 }

  function Pad(d: seq<byte>): seq<byte> {
    if NeedsPad(d) then d + [PAD] + Zeros(7 - |d| % 8) else d
  }

  /** The buffer ends, not at its first byte, in a pad byte followed by zeros only. */
  predicate LooksPadded(d: seq<byte>) {
    exists i :: 0 < i < |d| && PadAt(d, i)
  }

  predicate PadAt(d: seq<byte>, i: nat)
    requires i < |d|
  {
    d[i] == PAD && forall j :: i < j < |d| ==> d[j] == 0
  }

  lemma {:induction false} PadAtUnique(d: seq<byte>, i: nat, j: nat)
    requires i < |d| && j < |d| && PadAt(d, i) && PadAt(d, j)
    ensures i == j
  {
  }

  /** The loop at the end of decrypt_key_data: walk back over zeros, and cut at a pad byte if one comes next.  The
      first byte is never looked at. */
  method Unpad(d: seq<byte>) returns (r: seq<byte>)
    ensures r <= d
    ensures LooksPadded(d) ==> |r| < |d| && 0 < |r| && PadAt(d, |r|)
    ensures !LooksPadded(d) ==> r == d
    ensures r != d ==> d[|r|] == 0xDD && r != [] && forall j :: |r| < j < |d| ==> d[j] == 0
    ensures r == d ==> forall i :: 0 < i < |d| && d[i] == 0xDD ==> exists j :: i < j < |d| && d[j] != 0
  {
    var length := |d|;
    var i := |d| - 1;
    while i > 0
      invariant -1 <= i < |d|
      invariant forall j :: i < j < |d| ==> d[j] == 0
    {
      if d[i] == 0 {
        i := i - 1;
        continue;
      }
      if d[i] == PAD {
        length := i;
        assert PadAt(d, i);
      }
      break;
    }
    r := d[..length];
  }

  /** What unpadding does, as a relation; the method above is one way to do it and there is only one result. */
  ghost predicate Unpads(d: seq<byte>, r: seq<byte>) {
    r <= d && if LooksPadded(d) then 0 < |r| < |d| && PadAt(d, |r|) else r == d
  }

  lemma {:induction false} UnpadsUnique(d: seq<byte>, r: seq<byte>, r': seq<byte>)
    requires Unpads(d, r) && Unpads(d, r')
    ensures r == r'
  {
    if LooksPadded(d) { PadAtUnique(d, |r|, |r'|); }
  }

  lemma {:induction false} PadsAt(d: seq<byte>)
    requires NeedsPad(d)
    ensures |Pad(d)| % 8 == 0 && |d| < |Pad(d)| && d <= Pad(d) && PadAt(Pad(d), |d|)
  {
  }

  /** Unpadding undoes padding exactly when the data was not empty and, if it went unpadded, does not itself end
      like padding. */
  lemma {:induction false} PadRoundTrip(d: seq<byte>, r: seq<byte>)
    requires Unpads(Pad(d), r)
    ensures r == d <==> if NeedsPad(d) then d != [] else !LooksPadded(d)
  {
    if NeedsPad(d) {
      PadsAt(d);
      if d != [] { UnpadsUnique(Pad(d), r, d); }
    }
  }

  // -- Wrapping -------------------------------------------------------------------------------------

  /** AES key wrap under a fixed KEK. */
  type Wrap = seq<byte> -> seq<byte>
  type Unwrap = seq<byte> -> Option<seq<byte>>

  ghost predicate IsKeyWrap(wrap: Wrap, unwrap: Unwrap) {
    forall p :: |wrap(p)| == |p| + 8 && unwrap(wrap(p)) == Some(p)
  }

  /** encrypt_key_data with a KEK that is set: the key wrap refuses less than 16 bytes. */
  method Encrypt(wrap: Wrap, d: seq<byte>) returns (r: Option<seq<byte>>)
    ensures r == if |Pad(d)| < 16 then None else Some(wrap(Pad(d)))
    ensures r == if |d| < 8 then None
                 else if |d| % 8 == 0 && |d| >= 16 then Some(wrap(d))
                 else Some(wrap(d + [0xDD] + seq(7 - |d| % 8, _ => 0)))
  {
    var length := |d|;
    var remaining := 8 - |d| % 8;
    var copy := d + Zeros(remaining);
    if length % 8 != 0 || length < 16 {
      copy := copy[length := PAD];
      length := length + remaining;
    }
    assert copy[..length] == Pad(d);
    assert Zeros(7 - |d| % 8) == seq(7 - |d| % 8, _ => 0);
    if length < 16 {
      return None;
    }
    return Some(wrap(copy[..length]));
  }

  /** decrypt_key_data with a KEK that is set. */
  method Decrypt(unwrap: Unwrap, w: seq<byte>) returns (r: Option<seq<byte>>)
    ensures |w| < 24 || |w| % 8 != 0 || unwrap(w).None? ==> r == None
    ensures |w| >= 24 && |w| % 8 == 0 && unwrap(w).Some? ==> r.Some? && Unpads(unwrap(w).value, r.value)
  {
    if |w| < 24 || |w| % 8 != 0 {
      return None;
    }
    var u := unwrap(w);
    if u.None? {
      return None;
    }
    var d := Unpad(u.value);
    return Some(d);
  }

  /** Key data survives the round trip through key wrap exactly when it has at least eight bytes and either is
      padded or does not end like padding. */
  method KeyDataRoundTrip(wrap: Wrap, unwrap: Unwrap, d: seq<byte>) returns (survived: bool)
    requires IsKeyWrap(wrap, unwrap)
    ensures survived <==> |d| >= 8 && (NeedsPad(d) || !LooksPadded(d))
  {
    var w := Encrypt(wrap, d);
    if w.None? {
      PadLength(d);
      return false;
    }
    var r := Decrypt(unwrap, w.value);
    PadLength(d);
    PadRoundTrip(d, r.value);
    survived := r == Some(d);
  }

  lemma {:induction false} PadLength(d: seq<byte>)
    ensures |Pad(d)| % 8 == 0 && (|Pad(d)| >= 16 <==> |d| >= 8)
  {
    if NeedsPad(d) { PadsAt(d); }
  }

  // -- The 1905 GTK KDE -------------------------------------------------------------------------------

  const GTK_LENGTH: nat := 64
  const KDE_BASE_SIZE: nat := 4

  type GtkBytes = g: seq<byte> | |g| == GTK_LENGTH witness Zeros(GTK_LENGTH)

  /** The KDE as frame 3 and group frame 1 build it: type, length, OUI, data type, key id, key. */
  function GtkKde(keyId: byte, gtk: GtkBytes): seq<byte> {
    [0xDD, GTK_LENGTH + KDE_BASE_SIZE, 0x50, 0x6F, 0x9A, 0, keyId % 4] + gtk
  }

  /** What the receivers read: the data type, the two bits of the key id, and the key by its position. */
  function ReadGtk(d: seq<byte>): Option<(byte, seq<byte>)> {
    if |d| < 7 || d[5] != 0 || d[6] % 4 == 0 then None else Some((d[6] % 4, d[7..]))
  }

  /** What is read from arbitrary bytes. */
  lemma {:induction false} ReadGtkIff(d: seq<byte>, keyId: byte, gtk: seq<byte>)
    ensures ReadGtk(d) == Some((keyId, gtk)) <==>
            keyId != 0
            && exists head: seq<byte> :: |head| == 7 && d == head + gtk && head[5] == 0 && head[6] % 4 == keyId
  {
    if |d| >= 7 { assert d == d[..7] + d[7..]; }
    if head: seq<byte> :| |head| == 7 && d == head + gtk && head[5] == 0 && head[6] % 4 == keyId {
      assert d[7..] == gtk;
    }
  }

  /** Every GTK reaches the receiver whole, under its id modulo 4, unless that is 0, which is refused.  The KDE is the
      vendor-specific one of the Wi-Fi Alliance with 68 as its length, 71 bytes in all. */
  lemma {:induction false} GtkSurvives(keyId: byte, gtk: GtkBytes, r: seq<byte>)
    requires Unpads(Pad(GtkKde(keyId, gtk)), r)
    ensures GtkKde(keyId, gtk)[..7] == [0xDD, 68, 0x50, 0x6F, 0x9A, 0, keyId % 4] && |GtkKde(keyId, gtk)| == 71
    ensures |Pad(GtkKde(keyId, gtk))| == 72
    ensures ReadGtk(r) == if keyId % 4 == 0 then None else Some((keyId % 4, gtk))
  {
    PadRoundTrip(GtkKde(keyId, gtk), r);
    PadsAt(GtkKde(keyId, gtk));
    assert GtkKde(keyId, gtk)[7..] == gtk;
  }

  // -- Appending ------------------------------------------------------------------------------------

  /** The key data length field, and the zero-initialised bytes after it. */
  datatype Field = Field(length: nat, bytes: seq<byte>)

  function Content(f: Field): seq<byte>
    requires f.length <= |f.bytes|
  {
    f.bytes[..f.length]
  }

  /** append_key_data_buff: the frame grows, the 16-bit length is increased, and the new data is copied to the start of
      the field. */
  function Append(f: Field, kde: seq<byte>): Field {
    var grown := f.bytes + Zeros(|kde| + 2);
    Field((f.length + |kde|) % 0x10000, kde + grown[|kde|..])
  }

  /** The field starts with the new KDE and is otherwise as it was; it grows by the KDE and two more zero bytes. */
  lemma {:induction false} AppendOverwrites(f: Field, kde: seq<byte>)
    ensures var g := Append(f, kde);
            && g.length == (f.length + |kde|) % 0x10000 && |g.bytes| == |f.bytes| + |kde| + 2 && kde <= g.bytes
            && forall p :: |kde| <= p < |g.bytes| ==> g.bytes[p] == if p < |f.bytes| then f.bytes[p] else 0
  {
    var grown := f.bytes + Zeros(|kde| + 2);
    assert forall p :: |kde| <= p < |grown| ==> Append(f, kde).bytes[p] == grown[p];
  }

  function AppendAll(kdes: seq<seq<byte>>): Field {
    if kdes == [] then Field(0, []) else Append(AppendAll(kdes[..|kdes| - 1]), kdes[|kdes| - 1])
  }

  function Flatten(kdes: seq<seq<byte>>): seq<byte> {
    if kdes == [] then [] else Flatten(kdes[..|kdes| - 1]) + kdes[|kdes| - 1]
  }

  /** The bytes beyond all KDEs are zero. */
  lemma {:induction false} AppendBytes(kdes: seq<seq<byte>>)
    ensures var f := AppendAll(kdes);
            |Flatten(kdes)| <= |f.bytes| && forall p :: |Flatten(kdes)| <= p < |f.bytes| ==> f.bytes[p] == 0
  {
    if kdes != [] { AppendBytes(kdes[..|kdes| - 1]); }
  }

  lemma {:induction false} WrapAdd(x: nat, y: nat)
    ensures (x % 0x10000 + y) % 0x10000 == (x + y) % 0x10000
  {
    assert x == 0x10000 * (x / 0x10000) + x % 0x10000;
  }

  lemma {:induction false} AppendLength(kdes: seq<seq<byte>>)
    ensures AppendAll(kdes).length == |Flatten(kdes)| % 0x10000
  {
    if kdes != [] {
      var before, k := kdes[..|kdes| - 1], kdes[|kdes| - 1];
      AppendLength(before);
      WrapAdd(|Flatten(before)|, |k|);
      assert |Flatten(kdes)| == |Flatten(before)| + |k|;
    }
  }

  function LastNonzero(k: seq<byte>): (z: nat)
    requires k != [] && k[0] != 0
    ensures z < |k| && k[z] != 0 && forall p :: z < p < |k| ==> k[p] == 0
  {
    if k[|k| - 1] != 0 then |k| - 1 else LastNonzero(k[..|k| - 1])
  }

  /** Appending KDEs, whose length byte bounds their size, gives their concatenation exactly when there is at most one:
      the second is copied over the first. */
  lemma {:induction false} AppendOnlyOnce(kdes: seq<seq<byte>>)
    requires forall k :: k in kdes ==> KDE_BASE_SIZE <= |k| <= 2 + 255 && k[0] == 0xDD
    ensures var f := AppendAll(kdes);
            f.length <= |f.bytes| && (Content(f) == Flatten(kdes) <==> |kdes| <= 1)
  {
    AppendLength(kdes);
    AppendBytes(kdes);
    if kdes != [] {
      var before, k := kdes[..|kdes| - 1], kdes[|kdes| - 1];
      var g := AppendAll(kdes);
      assert k in kdes;
      if |kdes| == 1 {
        assert Flatten(kdes) == k && before == [];
        assert Content(g) == k;
      } else {
        OverwrittenAt(before, k, kdes);
      }
    }
  }

  /** Where the last nonzero byte of the last KDE should be, there is a zero. */
  lemma {:induction false} ZeroAt(f: Field, total: nat, k: seq<byte>, g: Field)
    requires 0 < total <= |f.bytes| && (forall p :: total <= p < |f.bytes| ==> f.bytes[p] == 0)
    requires k != [] && k[0] != 0 && g == Append(f, k)
    ensures total + LastNonzero(k) < |g.bytes| && g.bytes[total + LastNonzero(k)] == 0
  {
    var p := total + LastNonzero(k);
    var grown := f.bytes + Zeros(|k| + 2);
    assert g.bytes[p] == if p < |k| then k[p] else grown[p];
  }

  lemma {:induction false} OverwrittenAt(before: seq<seq<byte>>, k: seq<byte>, kdes: seq<seq<byte>>)
    requires before != [] && kdes == before + [k] && k != [] && k[0] != 0
    requires forall x :: x in before ==> |x| >= KDE_BASE_SIZE
    requires AppendAll(kdes).length <= |AppendAll(kdes).bytes|
    ensures Content(AppendAll(kdes)) != Flatten(kdes)
  {
    assert kdes[..|kdes| - 1] == before;
    AppendBytes(before);
    FlattenNonempty(before);
    ZeroAt(AppendAll(before), |Flatten(before)|, k, AppendAll(kdes));
    NotContent(AppendAll(kdes), Flatten(before), k);
  }

  lemma {:induction false} NotContent(g: Field, front: seq<byte>, k: seq<byte>)
    requires g.length <= |g.bytes| && k != [] && k[0] != 0
    requires |front| + LastNonzero(k) < |g.bytes| && g.bytes[|front| + LastNonzero(k)] == 0
    ensures Content(g) != front + k
  {
    assert (front + k)[|front| + LastNonzero(k)] == k[LastNonzero(k)];
  }

  lemma {:induction false} FlattenNonempty(kdes: seq<seq<byte>>)
    requires kdes != [] && forall k :: k in kdes ==> |k| >= KDE_BASE_SIZE
    ensures |Flatten(kdes)| > 0
  {
    assert kdes[|kdes| - 1] in kdes;
  }
}
