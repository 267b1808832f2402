/** GAS Comeback sessions: the proxy agent's queues and the enrollee's reassembly buffers. */
module Gas {
  import opened Base
  import opened Fragmentation
  import opened Text

  type Mac = m: seq<byte> | |m| == 6 witness [0, 0, 0, 0, 0, 0]

  // -- The key of a session -----------------------------------------------------------------------

  function HexDigit(d: nat): char
    requires d < 16
  {
    if d < 10 then '0' + d as char else 'a' + (d - 10) as char
  }

  function HexByte(b: byte): string { [HexDigit(b / 16), HexDigit(b % 16)] }

  /** util::mac_to_string with the default delimiter */
  function MacString(m: Mac): string {
    HexByte(m[0]) + ":" + HexByte(m[1]) + ":" + HexByte(m[2]) + ":" + HexByte(m[3]) + ":" + HexByte(m[4]) + ":"
        + HexByte(m[5])
  }

  function Key(src: Mac, token: byte): string { MacString(src) + "_" + Decimal(token) }

  lemma {:induction false} HexByteInjective(x: byte, y: byte)
    requires HexByte(x) == HexByte(y)
    ensures x == y
  {
    var s, t := HexByte(x), HexByte(y);
    assert s[0] == t[0] && s[1] == t[1];
  }

  lemma {:induction false} MacStringAt(m: Mac, i: nat)
    requires i < 6
    ensures |MacString(m)| == 17 && MacString(m)[3 * i..3 * i + 2] == HexByte(m[i])
    ensures i < 5 ==> MacString(m)[3 * i + 2] == ':'
  {
    var s := MacString(m);
    if i == 0 {
      assert s[0..2] == HexByte(m[0]);
    } else if i == 1 {
      assert s[3..5] == HexByte(m[1]);
    } else if i == 2 {
      assert s[6..8] == HexByte(m[2]);
    } else if i == 3 {
      assert s[9..11] == HexByte(m[3]);
    } else if i == 4 {
      assert s[12..14] == HexByte(m[4]);
    } else {
      assert s[15..17] == HexByte(m[5]);
    }
  }

  /** The string key determines the MAC address and the dialog token. */
  lemma {:induction false} KeyInjective(m: Mac, t: byte, m': Mac, t': byte)
    ensures Key(m, t) == Key(m', t') <==> m == m' && t == t'
  {
    if Key(m, t) == Key(m', t') {
      MacStringAt(m, 0);
      MacStringAt(m', 0);
      assert Key(m, t)[..17] == MacString(m) && Key(m', t')[..17] == MacString(m');
      assert Key(m, t)[18..] == Decimal(t) && Key(m', t')[18..] == Decimal(t');
      DecimalInjective(t, t');
      forall i | 0 <= i < 6 ensures m[i] == m'[i] {
        MacStringAt(m, i);
        MacStringAt(m', i);
        HexByteInjective(m[i], m'[i]);
      }
    }
  }

  lemma {:induction false} HexDigits(d: nat)
    requires d < 16
    ensures HexDigit(d) == "0123456789abcdef"[d]
  {
  }

  /** The key is the MAC address in lower-case hexadecimal with colons, an underscore, and the token in decimal. */
  lemma {:induction false} KeyFormat(m: Mac, t: byte, i: nat)
    requires i < 6
    ensures |Key(m, t)| > 18 && Key(m, t)[17] == '_' && Key(m, t)[18..] == Decimal(t)
    ensures Key(m, t)[3 * i] == "0123456789abcdef"[m[i] / 16] && Key(m, t)[3 * i + 1] == "0123456789abcdef"[m[i] % 16]
    ensures i < 5 ==> Key(m, t)[3 * i + 2] == ':'
  {
    MacStringAt(m, i);
    HexDigits(m[i] / 16);
    HexDigits(m[i] % 16);
    var key, s := Key(m, t), MacString(m);
    assert key[..17] == s && key[18..] == Decimal(t) && key[17] == '_';
    assert s[3 * i] == s[3 * i..3 * i + 2][0] && s[3 * i + 1] == s[3 * i..3 * i + 2][1];
  }

  // -- The enrollee -------------------------------------------------------------------------------

  /** gas_fragment_buffer_t; `expected` is a byte although ids have seven bits. */
  datatype Buffer = Buffer(payload: seq<byte>, expected: byte)

  const EMPTY := Buffer([], 0)

  /** The buffers after a frame, the payload handed to the configuration handler, whether a comeback request
      was sent, and the result. */
  datatype Outcome = Outcome(buffers: map<string, Buffer>, delivered: Option<seq<byte>>, request: bool, ok: bool)

  function Lookup(buffers: map<string, Buffer>, key: string): Buffer { if key in buffers then buffers[key] else EMPTY }

  /** handle_gas_comeback_response.  `handled` is the result of the configuration handler, `sent` that of
      sending the next comeback request. */
  function OnComebackResponse(buffers: map<string, Buffer>, src: Mac, f: Fragment, handled: bool, sent: bool): Outcome {
    var key := Key(src, f.token);
    var b := Lookup(buffers, key);
    if f.id != b.expected then Outcome(buffers[key := b], None, false, false) else
    var b' := Buffer(b.payload + f.data, (b.expected + 1) % 256);
    if f.more then Outcome(buffers[key := b'], None, sent, sent)
    else if !handled then Outcome(buffers[key := b'], Some(b'.payload), false, false)
    else Outcome(map k | k in buffers && k != key :: buffers[k], Some(b'.payload), false, true)
  }

  /** What a frame does to the buffer of its own session; the erased buffer is the empty one. */
  function Next(b: Buffer, f: Fragment, handled: bool): (Buffer, Option<seq<byte>>) {
    if f.id != b.expected then (b, None) else
    var b' := Buffer(b.payload + f.data, (b.expected + 1) % 256);
    if f.more then (b', None) else (if handled then EMPTY else b', Some(b'.payload))
  }

  /** The enrollee asks for the next fragment: it has accepted this one, more are to come, and the request went out. */
  predicate Asks(b: Buffer, f: Fragment, sent: bool) { f.id == b.expected && f.more && sent }

  /** A frame acts on the buffer of its own session and on no other. */
  lemma {:induction false} ResponseIsLocal(buffers: map<string, Buffer>, src: Mac, f: Fragment, handled: bool,
      sent: bool, m: Mac, t: byte)
    ensures var o := OnComebackResponse(buffers, src, f, handled, sent);
            if src == m && f.token == t then
              && (Lookup(o.buffers, Key(m, t)), o.delivered) == Next(Lookup(buffers, Key(m, t)), f, handled)
              && (o.request <==> Asks(Lookup(buffers, Key(m, t)), f, sent))
            else
              Lookup(o.buffers, Key(m, t)) == Lookup(buffers, Key(m, t))
  {
    KeyInjective(src, f.token, m, t);
  }

  class Enrollee {
    var buffers: map<string, Buffer>

    constructor ()
      ensures buffers == map[]
    {
      buffers := map[];
    }

    method HandleComebackResponse(src: Mac, f: Fragment, handled: bool, sent: bool)
      returns (delivered: Option<seq<byte>>, request: bool, ok: bool)
      modifies this
      ensures Outcome(buffers, delivered, request, ok) == OnComebackResponse(old(buffers), src, f, handled, sent)
      ensures var b := Lookup(old(buffers), Key(src, f.token));
              && (request <==> f.id == b.expected && f.more && sent)
              && (ok <==> f.id == b.expected && if f.more then sent else handled)
              && delivered == (if f.id == b.expected && !f.more then Some(b.payload + f.data) else None)
    {
      delivered, request, ok := None, false, false;
      var key := Key(src, f.token);
      if key !in buffers {
        buffers := buffers[key := EMPTY];
      }
      if f.id != buffers[key].expected {
        return;
      }
      var payload := buffers[key].payload + f.data;
      var expected := (buffers[key].expected + 1) % 256;
      buffers := buffers[key := Buffer(payload, expected)];
      if !f.more {
        delivered := Some(buffers[key].payload);
        if !handled {
          return;
        }
        buffers := map k | k in buffers && k != key :: buffers[k];
      }
      if f.more {
        request := sent;
        return delivered, request, sent;
      }
      ok := true;
    }
  }

  // -- The proxy agent ----------------------------------------------------------------------------

  /** What a comeback request does to a queue, and the fragment it puts on the air. */
  function Serve(queue: seq<Fragment>, sent: bool): (seq<Fragment>, Option<Fragment>) {
    if queue == [] then ([], None) else (queue[1..], if sent then Some(queue[0]) else None)
  }

  class ProxyAgent {
    var queues: map<string, seq<Fragment>>
    var tokens: map<string, byte>

    constructor ()
      ensures queues == map[] && tokens == map[]
    {
      queues, tokens := map[], map[];
    }

    /** handle_cfg_request records the dialog token of the session. */
    method HandleConfigRequest(sa: Mac, token: byte)
      modifies this`tokens
      ensures tokens == old(tokens)[MacString(sa) := token]
    {
      tokens := tokens[MacString(sa) := token];
    }

    /** The fragmenting branch of process_proxy_encap_dpp_msg. */
    method QueueFragments(dest: Mac, payload: seq<byte>, prepared: bool) returns (ok: bool)
      modifies this`queues
      ensures ok <==> MacString(dest) in tokens && prepared
      ensures MacString(dest) !in tokens ==> queues == old(queues)
      ensures MacString(dest) in tokens ==>
                queues == old(queues)[MacString(dest) := Fragments(payload, 1400, tokens[MacString(dest)])]
    {
      if MacString(dest) !in tokens {
        return false;
      }
      var fragments := FragmentLargeFrame(payload, tokens[MacString(dest)], WIFI_MTU_SIZE);
      queues := queues[MacString(dest) := fragments];
      return prepared;
    }

    /** handle_gas_comeback_request: the first fragment leaves the queue whether or not it could be sent. */
    method HandleComebackRequest(sa: Mac, sent: bool) returns (out: Option<Fragment>, ok: bool)
      modifies this`queues
      ensures var key := MacString(sa);
              if key !in old(queues) then queues == old(queues) && out == None && ok
              else if key !in tokens then queues == old(queues) && out == None && !ok
              else
                && queues == old(queues)[key := Serve(old(queues)[key], sent).0]
                && out == Serve(old(queues)[key], sent).1 && (ok <==> out.Some?)
    {
      out := None;
      var key := MacString(sa);
      if key !in queues {
        return None, true;
      }
      if key !in tokens {
        return None, false;
      }
      var fragments := queues[key];
      if fragments == [] {
        return None, false;
      }
      var fragment := fragments[0];
      queues := queues[key := fragments[1..]];
      if !sent {
        return None, false;
      }
      return Some(fragment), true;
    }
  }
}
