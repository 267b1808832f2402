/** The channel list of a DPP URI. */
module ChannelList {
  import opened Base
  import opened Text

  const INT_MAX: int := 0x7FFF_FFFF
  const INT_MIN: int := -0x8000_0000

  predicate IsSpace(c: char) { c == ' ' || '\t' <= c <= '\r' }

  function SkipSpace(s: string): string { if s != [] && IsSpace(s[0]) then SkipSpace(s[1..]) else s }

  /** The digits at the start of a string. */
  function Digits(s: string): (r: string)
    ensures forall i :: 0 <= i < |r| ==> IsDigit(r[i])
  {
    if s == [] || !IsDigit(s[0]) then [] else [s[0]] + Digits(s[1..])
  }

  /** std::stoi: white space, a sign, digits, and whatever follows; None is the exception thrown where there are no
      digits or the number does not fit an int. */
  function Stoi(s: string): Option<int> {
    var t := SkipSpace(s);
    var negative := t != [] && t[0] == '-';
    var ds := Digits(if t != [] && (t[0] == '-' || t[0] == '+') then t[1..] else t);
    if ds == [] then None else
    var v := if negative then -(Value(ds) as int) else Value(ds);
    if INT_MIN <= v <= INT_MAX then Some(v) else None
  }

  function ToU32(v: int): nat { v % 0x1_0000_0000 }

  /** The position of the first c from i on, or the length of the string. */
  function Find(s: string, c: char, i: nat): (r: nat)
    requires i <= |s|
    ensures i <= r <= |s| && (r < |s| ==> s[r] == c) && forall j :: i <= j < r ==> s[j] != c
    decreases |s| - i
  {
    if i == |s| || s[i] == c then i else Find(s, c, i + 1)
  }

  // -- What std::stoi makes of a string ---------------------------------------------------------------

  /** Blanks, horizontal and vertical tabs, line feeds, form feeds and carriage returns. */
  ghost predicate Blank(s: string) { forall i :: 0 <= i < |s| ==> s[i] == ' ' || 9 <= s[i] as int <= 13 }

  ghost predicate Numeral(s: string) { s != [] && forall i :: 0 <= i < |s| ==> '0' <= s[i] <= '9' }

  /** The string does not start with a digit. */
  predicate NoDigitFirst(s: string) { s == [] || !('0' <= s[0] <= '9') }

  lemma {:induction false} SkipsBlank(blank: string, s: string)
    requires Blank(blank) && (s == [] || !(s[0] == ' ' || 9 <= s[0] as int <= 13))
    ensures SkipSpace(blank + s) == s
  {
    if blank == [] {
      assert blank + s == s;
    } else {
      assert (blank + s)[1..] == blank[1..] + s;
      SkipsBlank(blank[1..], s);
    }
  }

  lemma {:induction false} DigitsOf(ds: string, rest: string)
    requires (ds == [] || Numeral(ds)) && NoDigitFirst(rest)
    ensures Digits(ds + rest) == ds
  {
    if ds == [] {
      assert ds + rest == rest;
    } else {
      assert (ds + rest)[1..] == ds[1..] + rest;
      DigitsOf(ds[1..], rest);
      assert ds == [ds[0]] + ds[1..];
    }
  }

  /** White space, an optional sign and a numeral make the number, whatever follows, if it fits 32 bits, and the same
      without a numeral makes none.  Every string has one of these two forms. */
  lemma {:induction false} StoiMeans(blank: string, sign: string, ds: string, rest: string)
    requires Blank(blank) && sign in {"", "+", "-"} && (ds == [] || Numeral(ds)) && NoDigitFirst(rest)
    requires sign == "" && ds == [] && rest != [] ==> rest[0] !in {'+', '-', ' '} && !(9 <= rest[0] as int <= 13)
    ensures ds == [] ==> Stoi(blank + sign + ds + rest) == None
    ensures ds != [] ==> var v := if sign == "-" then -(Value(ds) as int) else Value(ds);
                         Stoi(blank + sign + ds + rest)
                         == if -2147483648 <= v <= 2147483647 then Some(v) else None
  {
    var t := sign + ds + rest;
    assert blank + sign + ds + rest == blank + t;
    AfterSign(sign, ds, rest, t);
    SkipsBlank(blank, t);
    DigitsOf(ds, rest);
    StoiIs(blank + t, t, sign == "-", ds, ds + rest);
  }

  lemma {:induction false} StoiIs(s: string, t: string, negative: bool, ds: string, u: string)
    requires SkipSpace(s) == t && (negative <==> t != [] && t[0] == '-') && Digits(u) == ds
    requires u == if t != [] && (t[0] == '-' || t[0] == '+') then t[1..] else t
    ensures ds == [] ==> Stoi(s) == None
    ensures ds != [] ==> var v := if negative then -(Value(ds) as int) else Value(ds);
                         Stoi(s) == if -2147483648 <= v <= 2147483647 then Some(v) else None
  {
  }

  lemma {:induction false} AfterSign(sign: string, ds: string, rest: string, t: string)
    requires t == sign + ds + rest && sign in {"", "+", "-"} && (ds == [] || Numeral(ds))
    requires sign == "" && ds == [] && rest != [] ==> rest[0] !in {'+', '-', ' '} && !(9 <= rest[0] as int <= 13)
    ensures (if t != [] && (t[0] == '-' || t[0] == '+') then t[1..] else t) == ds + rest
    ensures t != [] && t[0] == '-' <==> sign == "-"
    ensures t == [] || !(t[0] == ' ' || 9 <= t[0] as int <= 13)
  {
    if sign == "" { assert t == ds + rest; } else { assert t[1..] == ds + rest; }
  }

  type Pairs = seq<(nat, nat)>

  /** One piece: nothing without a slash, else a pair. */
  function Piece(p: string): Option<Pairs> {
    var slash := Find(p, '/', 0);
    if slash == |p| then Some([]) else
    var opClass, channel := Stoi(p[..slash]), Stoi(p[slash + 1..]);
    if opClass == None || channel == None then None else Some([(ToU32(opClass.value), ToU32(channel.value))])
  }

  function Both(x: Option<Pairs>, y: Option<Pairs>): Option<Pairs> {
    if x == None || y == None then None else Some(x.value + y.value)
  }

  /** The meaning of a list, piece by piece. */
  function Meaning(s: string): Option<Pairs> {
    if s == [] then Some([]) else
    var comma := Find(s, ',', 0);
    if comma == |s| then Piece(s) else Both(Piece(s[..comma]), Meaning(s[comma + 1..]))
  }

  /** A piece without a slash contributes nothing; one with a slash gives the pair of the two numbers around the first,
      as unsigned 32-bit ones, and fails exactly when one of them is none. */
  lemma {:induction false} PieceMeans(x: string, y: string)
    requires '/' !in x && ',' !in x && ',' !in y
    ensures Meaning(x) == Some([])
    ensures Meaning(x + "/" + y)
         == if Stoi(x).None? || Stoi(y).None? then None
            else Some([(if Stoi(x).value < 0 then Stoi(x).value + 4294967296 else Stoi(x).value,
                        if Stoi(y).value < 0 then Stoi(y).value + 4294967296 else Stoi(y).value)])
  {
    var p := x + "/" + y;
    FindIs(x, '/', 0, |x|);
    FindIs(p, '/', 0, |x|);
    FindIs(x, ',', 0, |x|);
    FindIs(p, ',', 0, |p|);
    assert p[..|x|] == x && p[|x| + 1..] == y;
  }

  lemma {:induction false} BothLaws(x: Option<Pairs>, y: Option<Pairs>, z: Option<Pairs>)
    ensures Both(Both(x, y), z) == Both(x, Both(y, z)) && Both(Some([]), x) == x && Both(x, Some([])) == x
  {
    if x.Some? {
      assert [] + x.value == x.value && x.value + [] == x.value;
      if y.Some? && z.Some? { assert (x.value + y.value) + z.value == x.value + (y.value + z.value); }
    }
  }

  /** The first comma is at k, or there is none and k is the end. */
  predicate CutAt(s: string, k: nat) {
    k <= |s| && (k < |s| ==> s[k] == ',') && forall j :: 0 <= j < k ==> s[j] != ','
  }

  /** The first piece and the rest. */
  predicate SplitsAt(s: string, k: nat, piece: string, rest: string) {
    CutAt(s, k) && piece == s[..k] && rest == if k < |s| then s[k + 1..] else []
  }

  lemma {:induction false} FirstPiece(s: string, k: nat, piece: string, rest: string)
    requires s != [] && SplitsAt(s, k, piece, rest)
    ensures Meaning(s) == Both(Piece(piece), Meaning(rest))
  {
    FindIs(s, ',', 0, k);
    if k == |s| {
      assert piece == s;
      BothLaws(Piece(s), None, None);
    }
  }

  /** parse_dpp_uri_channel_list: std::getline takes the pieces one after the other until the input is used up. */
  method Parse(s: string) returns (r: Option<Pairs>)
    ensures r == Meaning(s)
  {
    var pairs: Pairs := [];
    var pos := 0;
    assert s[0..] == s;
    BothLaws(Meaning(s), None, None);
    while pos < |s|
      invariant pos <= |s|
      invariant Meaning(s) == Both(Some(pairs), Meaning(s[pos..]))
    {
      var end := Find(s, ',', pos);
      var pair := s[pos..end];
      var next := if end < |s| then end + 1 else end;
      PieceAt(s, pos, end, next, s[pos..], pair, s[next..]);
      BothLaws(Some(pairs), Piece(pair), Meaning(s[next..]));
      var one := ParsePair(pair);
      if one == None {
        return None;
      }
      pairs, pos := pairs + one.value, next;
    }
    BothLaws(Some(pairs), None, None);
    assert s[pos..] == [];
    r := Some(pairs);
  }

  /** The body of the loop. */
  method ParsePair(pair: string) returns (r: Option<Pairs>)
    ensures r == Piece(pair)
  {
    var slash := Find(pair, '/', 0);
    if slash == |pair| {
      return Some([]);
    }
    var opClass := Stoi(pair[..slash]);
    if opClass == None {
      return None;
    }
    var channel := Stoi(pair[slash + 1..]);
    if channel == None {
      return None;
    }
    return Some([(ToU32(opClass.value), ToU32(channel.value))]);
  }

  lemma {:induction false} PieceAt(s: string, pos: nat, end: nat, next: nat, rest: string, piece: string, tail: string)
    requires pos < |s| && end == Find(s, ',', pos) && next == if end < |s| then end + 1 else end
    requires rest == s[pos..] && piece == s[pos..end] && tail == s[next..]
    ensures Meaning(rest) == Both(Piece(piece), Meaning(tail))
  {
    RestAt(s, pos, end, next, rest, piece, tail);
    FirstPiece(rest, end - pos, piece, tail);
  }

  lemma {:induction false} RestAt(s: string, pos: nat, end: nat, next: nat, rest: string, piece: string, tail: string)
    requires pos < |s| && end == Find(s, ',', pos) && next == (if end < |s| then end + 1 else end)
    requires rest == s[pos..] && piece == s[pos..end] && tail == s[next..]
    ensures rest != [] && SplitsAt(rest, end - pos, piece, tail)
  {
    assert forall j :: 0 <= j < |rest| ==> rest[j] == s[pos + j];
  }

  /** The position is determined by what Find promises. */
  lemma {:induction false} FindIs(s: string, c: char, i: nat, k: nat)
    requires i <= k <= |s| && (k < |s| ==> s[k] == c) && forall j :: i <= j < k ==> s[j] != c
    ensures Find(s, c, i) == k
  {
  }

  /** Parsing distributes over the comma, for all strings: the joined list has a meaning exactly when both parts do. */
  lemma {:induction false} MeaningOfJoin(a: string, b: string)
    ensures Meaning(a + "," + b) == Both(Meaning(a), Meaning(b))
    decreases |a|
  {
    var k := Find(a, ',', 0);
    if k < |a| {
      MeaningOfJoin(a[k + 1..], b);
      JoinAfterComma(a, k, b);
    } else {
      JoinOne(a, b);
    }
  }

  lemma {:induction false} JoinAfterComma(a: string, k: nat, b: string)
    requires k < |a| && a[k] == ',' && forall j :: 0 <= j < k ==> a[j] != ','
    requires Meaning(a[k + 1..] + "," + b) == Both(Meaning(a[k + 1..]), Meaning(b))
    ensures Meaning(a + "," + b) == Both(Meaning(a), Meaning(b))
  {
    var rest := a[k + 1..];
    JoinSplits(a, k, b, rest);
    FirstPiece(a, k, a[..k], rest);
    FirstPiece(a + "," + b, k, a[..k], rest + "," + b);
    BothLaws(Piece(a[..k]), Meaning(rest), Meaning(b));
  }

  lemma {:induction false} JoinSplits(a: string, k: nat, b: string, rest: string)
    requires CutAt(a, k) && k < |a| && rest == a[k + 1..]
    ensures SplitsAt(a, k, a[..k], rest) && SplitsAt(a + "," + b, k, a[..k], rest + "," + b)
  {
    var s := a + "," + b;
    assert forall i :: 0 <= i < |a| ==> s[i] == a[i];
    assert s[k + 1..] == rest + "," + b;
  }

  lemma {:induction false} JoinOne(a: string, b: string)
    requires CutAt(a, |a|)
    ensures Meaning(a + "," + b) == Both(Meaning(a), Meaning(b))
  {
    var s := a + "," + b;
    assert forall i :: 0 <= i < |a| ==> s[i] == a[i];
    assert s[..|a|] == a && s[|a| + 1..] == b;
    FirstPiece(s, |a|, a, b);
    EmptyPiece();
    if a != [] {
      assert a[..|a|] == a;
      FirstPiece(a, |a|, a, []);
      BothLaws(Piece(a), None, None);
    }
  }

  lemma {:induction false} EmptyPiece()
    ensures Piece([]) == Some([]) && Meaning([]) == Some([])
  {
  }

  // -- Printing -------------------------------------------------------------------------------------

  function PrintPair(p: (nat, nat)): string { Decimal(p.0) + "/" + Decimal(p.1) }

  function Print(ps: Pairs): string {
    if ps == [] then "" else if |ps| == 1 then PrintPair(ps[0]) else PrintPair(ps[0]) + "," + Print(ps[1..])
  }

  lemma {:induction false} AllDigits(s: string)
    requires forall i :: 0 <= i < |s| ==> IsDigit(s[i])
    ensures Digits(s) == s
  {
    if s != [] { AllDigits(s[1..]); }
  }

  lemma {:induction false} StoiDecimal(n: nat)
    requires n <= INT_MAX
    ensures Stoi(Decimal(n)) == Some(n)
  {
    DecimalDigits(n);
    AllDigits(Decimal(n));
  }

  lemma {:induction false} PrintedPair(p: (nat, nat))
    requires p.0 <= INT_MAX && p.1 <= INT_MAX
    ensures Meaning(PrintPair(p)) == Some([p]) && PrintPair(p) != []
  {
    PrintedPiece(p);
    BothLaws(Some([p]), None, None);
    var s := PrintPair(p);
    assert s[..|s|] == s;
    FirstPiece(s, |s|, s, []);
  }

  lemma {:induction false} PrintedPiece(p: (nat, nat))
    requires p.0 <= INT_MAX && p.1 <= INT_MAX
    ensures Piece(PrintPair(p)) == Some([p]) && PrintPair(p) != []
    ensures forall i :: 0 <= i < |PrintPair(p)| ==> PrintPair(p)[i] != ','
  {
    var a, b := Decimal(p.0), Decimal(p.1);
    DecimalDigits(p.0);
    DecimalDigits(p.1);
    StoiDecimal(p.0);
    StoiDecimal(p.1);
    SlashedPiece(a, b, p.0, p.1);
  }

  lemma {:induction false} SlashedPiece(a: string, b: string, x: nat, y: nat)
    requires (forall i :: 0 <= i < |a| ==> IsDigit(a[i])) && (forall i :: 0 <= i < |b| ==> IsDigit(b[i]))
    requires x <= INT_MAX && y <= INT_MAX && Stoi(a) == Some(x) && Stoi(b) == Some(y)
    ensures Piece(a + "/" + b) == Some([(x, y)]) && forall i :: 0 <= i < |a + "/" + b| ==> (a + "/" + b)[i] != ','
  {
    var s := a + "/" + b;
    assert s[|a|] == '/' && forall i :: 0 <= i < |a| ==> s[i] == a[i];
    FindIs(s, '/', 0, |a|);
    assert s[..|a|] == a && s[|a| + 1..] == b;
  }

  /** Parsing a printed list returns it, for every list of numbers within the range of an int. */
  lemma {:induction false} PrintRoundTrip(ps: Pairs)
    requires forall p :: p in ps ==> p.0 <= INT_MAX && p.1 <= INT_MAX
    ensures Meaning(Print(ps)) == Some(ps)
  {
    if ps != [] {
      PrintedPair(ps[0]);
      if |ps| > 1 {
        PrintRoundTrip(ps[1..]);
        MeaningOfJoin(PrintPair(ps[0]), Print(ps[1..]));
        assert ps == [ps[0]] + ps[1..];
      } else {
        assert ps == [ps[0]];
      }
    }
  }
}
