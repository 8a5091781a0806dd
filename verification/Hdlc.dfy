/** HDLC framing: byte stuffing, the reassembly loop of SendSync, and the decoder whose counter
    counts rounds rather than bytes (section 4.2 of RFC 1662). */
module Hdlc {
  import Crc16

  type byte = bv8

  const FLAG: byte := 0x7e
  const ESC: byte := 0x7d
  const ESC_MASK: byte := 0x20
  const MAX_PACKET_SIZE: nat := 0x20000

  predicate Special(b: byte) { b == FLAG || b == ESC }

  function Masked(b: byte): byte { b ^ ESC_MASK }

  lemma MaskedFacts(b: byte)
    ensures Masked(Masked(b)) == b
    ensures Special(b) ==> !Special(Masked(b))
  {
  }

  function Stuff(b: byte): seq<byte> {
    if Special(b) then [ESC, Masked(b)] else [b]
  }

  /** Flag and escape are sent as section 4.2 of RFC 1662 has it, all else as it is. */
  lemma StuffIs(b: byte)
    ensures Stuff(b) == if b == 0x7e then [0x7d, 0x5e] else if b == 0x7d then [0x7d, 0x5d] else [b]
  {
  }

  /** How many bytes need an escape. */
  function Escapes(m: seq<byte>): (n: nat)
    ensures n <= |m|
  {
    if m == [] then 0 else Escapes(m[..|m| - 1]) + if Special(m[|m| - 1]) then 1 else 0
  }

  /** The bytes of m on the wire. */
  function Stuffed(m: seq<byte>): (s: seq<byte>)
    ensures |s| == |m| + Escapes(m)
  {
    if m == [] then [] else Stuffed(m[..|m| - 1]) + Stuff(m[|m| - 1])
  }

  /** A packet and its check sequence, low byte first. */
  function WithCrc(p: seq<byte>): (m: seq<byte>)
    ensures |m| == |p| + 2
  {
    p + Crc16.Trailer(Crc16.Crc(p))
  }

  function Frame(p: seq<byte>): (f: seq<byte>)
    ensures |f| == |WithCrc(p)| + Escapes(WithCrc(p)) + 2
  {
    [FLAG] + Stuffed(WithCrc(p)) + [FLAG]
  }

  lemma {:induction false} NoFlagInside(m: seq<byte>)
    ensures forall i | 0 <= i < |Stuffed(m)| :: Stuffed(m)[i] != FLAG
  {
    if m != [] {
      NoFlagInside(m[..|m| - 1]);
      MaskedFacts(m[|m| - 1]);
    }
  }

  /** Flags stand at both ends of a frame and nowhere else. */
  lemma FlagsOnlyAtEnds(p: seq<byte>)
    ensures var f := Frame(p);
            |f| >= 4 && forall i | 0 <= i < |f| :: f[i] == 0x7e <==> i == 0 || i == |f| - 1
  {
    NoFlagInside(WithCrc(p));
  }

  /** *outPtr++ = b */
  method Put(out: array<byte>, at: nat, b: byte) returns (next: nat)
    requires at < out.Length
    modifies out
    ensures next == at + 1
    ensures out[..next] == old(out[..at]) + [b] && forall k | next <= k < out.Length :: out[k] == old(out[k])
  {
    out[at] := b;
    next := at + 1;
  }

  method PutStuffed(out: array<byte>, at: nat, b: byte) returns (next: nat)
    requires at + 2 <= out.Length
    modifies out
    ensures at < next <= at + 2
    ensures out[..next] == old(out[..at]) + Stuff(b) && forall k | next <= k < out.Length :: out[k] == old(out[k])
  {
    hide Masked;
    if Special(b) {
      next := Put(out, at, ESC);
      next := Put(out, next, Masked(b));
      assert old(out[..at]) + [ESC] + [Masked(b)] == old(out[..at]) + Stuff(b);
    } else {
      next := Put(out, at, b);
    }
  }

  /** HDLCEncodePacket of serialport.cpp. */
  method HDLCEncodePacket(in_buf: seq<byte>, in_length: int, out_buf: array<byte>) returns (out_length: nat)
    requires 0 <= in_length <= |in_buf| && out_buf.Length >= 2 * in_length + 6
    modifies out_buf
    ensures out_length <= out_buf.Length && out_buf[..out_length] == Frame(in_buf[..in_length])
    ensures forall k | out_length <= k < out_buf.Length :: out_buf[k] == old(out_buf[k])
  {
    hide Special, Stuff, Crc16.Crc, Crc16.Trailer;
    var crc := Crc16.CalcCRC16(in_buf, in_length);
    assert in_length == 0 ==> in_buf[..in_length] == [];
    var src := in_buf[..in_length] + Crc16.Trailer(crc);
    assert src == WithCrc(in_buf[..in_length]);
    var outPtr := Put(out_buf, 0, FLAG);
    outPtr := PutAll(out_buf, outPtr, src);
    out_length := Put(out_buf, outPtr, FLAG);
  }

  /** The encoding loop. */
  method PutAll(out: array<byte>, at: nat, src: seq<byte>) returns (next: nat)
    requires at + 2 * |src| <= out.Length
    modifies out
    ensures at <= next <= at + 2 * |src|
    ensures out[..next] == old(out[..at]) + Stuffed(src)
    ensures forall k | next <= k < out.Length :: out[k] == old(out[k])
  {
    hide Stuff;
    next := at;
    assert src[..0] == [];
    for i := 0 to |src|
      invariant at <= next <= at + 2 * i
      invariant out[..next] == old(out[..at]) + Stuffed(src[..i])
      invariant forall k | next <= k < out.Length :: out[k] == old(out[k])
    {
      assert src[..i + 1][..i] == src[..i];
      next := PutStuffed(out, next, src[i]);
    }
    assert src[..|src|] == src;
  }

  // ----- decoding -----

  /** What n rounds of the decoding loop emit on the bytes at s; a round that meets an escape
      consumes two bytes, so the rounds may run past the packet. */
  function Decoded(s: seq<byte>, n: nat): (out: seq<byte>)
    ensures |out| <= n
    decreases n
  {
    if n == 0 || s == [] || s == [ESC] then []
    else if s[0] == FLAG then Decoded(s[1..], n - 1)
    else if s[0] == ESC then [Masked(s[1])] + Decoded(s[2..], n - 1)
    else [s[0]] + Decoded(s[1..], n - 1)
  }

  /** n rounds stay within the bytes at s. */
  predicate Readable(s: seq<byte>, n: nat)
    decreases n
  {
    n == 0 || (s != [] && s != [ESC] && Readable(if s[0] == ESC then s[2..] else s[1..], n - 1))
  }

  datatype Status = Ok | Enomem

  /** HDLCDecodePacket: mem is the input buffer with what lies behind the packet in memory. */
  method HDLCDecodePacket(mem: seq<byte>, in_length: nat, out_buf: array<byte>, capacity: int)
      returns (status: Status, out_length: int)
    requires capacity >= in_length ==> Readable(mem, in_length)
    requires capacity <= out_buf.Length
    modifies out_buf
    ensures capacity < in_length ==> status == Enomem && out_length == capacity && out_buf[..] == old(out_buf[..])
    ensures capacity >= in_length ==>
              && status == Ok && 0 <= out_length <= in_length
              && out_buf[..out_length] == Decoded(mem, in_length)
              && forall k | out_length <= k < out_buf.Length :: out_buf[k] == old(out_buf[k])
  {
    if capacity < in_length { return Enomem, capacity; }
    hide Masked, Decoded, Readable;
    var outPtr, inPtr := 0, 0;
    for i := 0 to in_length
      invariant 0 <= outPtr <= i && 0 <= inPtr <= |mem| && Readable(mem[inPtr..], in_length - i)
      invariant out_buf[..outPtr] + Decoded(mem[inPtr..], in_length - i) == Decoded(mem, in_length)
      invariant forall k | outPtr <= k < out_buf.Length :: out_buf[k] == old(out_buf[k])
    {
      ghost var before := out_buf[..outPtr];
      Round(mem, inPtr, in_length - i);
      if mem[inPtr] == FLAG {
        inPtr := inPtr + 1;
      } else if mem[inPtr] == ESC {
        inPtr := inPtr + 1;
        outPtr := Put(out_buf, outPtr, Masked(mem[inPtr]));
        inPtr := inPtr + 1;
        JoinOne(before, Masked(mem[inPtr - 1]), Decoded(mem[inPtr..], in_length - i - 1));
      } else {
        outPtr := Put(out_buf, outPtr, mem[inPtr]);
        inPtr := inPtr + 1;
        JoinOne(before, mem[inPtr - 1], Decoded(mem[inPtr..], in_length - i - 1));
      }
    }
    Silence(mem[inPtr..]);
    assert out_buf[..outPtr] + [] == out_buf[..outPtr];
    status, out_length := Ok, outPtr;
  }

  lemma Round(mem: seq<byte>, pos: nat, n: nat)
    requires pos <= |mem| && n > 0 && Readable(mem[pos..], n)
    ensures pos < |mem| && (mem[pos] == ESC ==> pos + 2 <= |mem|)
    ensures Readable(mem[if mem[pos] == ESC then pos + 2 else pos + 1..], n - 1)
    ensures Decoded(mem[pos..], n) ==
              if mem[pos] == FLAG then Decoded(mem[pos + 1..], n - 1)
              else if mem[pos] == ESC then [Masked(mem[pos + 1])] + Decoded(mem[pos + 2..], n - 1)
              else [mem[pos]] + Decoded(mem[pos + 1..], n - 1)
  {
    var s := mem[pos..];
    assert s[1..] == mem[pos + 1..];
    if s[0] == ESC { assert s[2..] == mem[pos + 2..]; }
  }

  lemma Silence(s: seq<byte>)
    ensures Decoded(s, 0) == []
  {
  }

  lemma JoinOne(a: seq<byte>, b: byte, c: seq<byte>)
    ensures a + ([b] + c) == a + [b] + c
  {
  }

  /** A round over one stuffed byte gives that byte. */
  lemma OneRound(c: byte, rest: seq<byte>, n: nat)
    ensures Decoded(Stuff(c) + rest, n + 1) == [c] + Decoded(rest, n)
    ensures Readable(Stuff(c) + rest, n + 1) <==> Readable(rest, n)
  {
    MaskedFacts(c);
    assert (Stuff(c) + rest)[|Stuff(c)|..] == rest;
  }

  lemma StuffedSnoc(m: seq<byte>, c: byte)
    ensures Stuffed(m + [c]) == Stuffed(m) + Stuff(c)
  {
    assert (m + [c])[..|m|] == m;
  }

  lemma Regroup(a: seq<byte>, b: seq<byte>, c: seq<byte>)
    ensures (a + b) + c == a + (b + c)
  {
  }

  /** Rounds over a stuffed packet give the packet back, one byte a round, and then go on behind it. */
  lemma {:induction false} DecodeStuffed(m: seq<byte>, rest: seq<byte>, n: nat)
    ensures Decoded(Stuffed(m) + rest, |m| + n) == m + Decoded(rest, n)
    ensures Readable(Stuffed(m) + rest, |m| + n) <==> Readable(rest, n)
    decreases |m|, 0
  {
    if m == [] {
      assert Stuffed(m) + rest == rest;
    } else {
      var k := |m| - 1;
      assert m == m[..k] + [m[k]];
      DecodeSnoc(m[..k], m[k], rest, n);
    }
  }

  lemma {:induction false} DecodeSnoc(t: seq<byte>, c: byte, rest: seq<byte>, n: nat)
    ensures Decoded(Stuffed(t + [c]) + rest, |t| + 1 + n) == (t + [c]) + Decoded(rest, n)
    ensures Readable(Stuffed(t + [c]) + rest, |t| + 1 + n) <==> Readable(rest, n)
    decreases |t|, 1
  {
    hide Decoded, Readable, Stuffed, Stuff;
    StuffedSnoc(t, c);
    Regroup(Stuffed(t), Stuff(c), rest);
    DecodeStuffed(t, Stuff(c) + rest, n + 1);
    OneRound(c, rest, n);
    Regroup(t, [c], Decoded(rest, n));
  }

  predicate StartsWithFlags(s: seq<byte>, k: nat) {
    k <= |s| && forall j | 0 <= j < k :: s[j] == FLAG
  }

  /** k rounds emit nothing exactly when they meet k flags. */
  lemma {:induction false} SilentIff(s: seq<byte>, k: nat)
    requires Readable(s, k)
    ensures Decoded(s, k) == [] <==> StartsWithFlags(s, k)
    decreases k
  {
    if k > 0 {
      if s[0] == FLAG {
        SilentIff(s[1..], k - 1);
        assert k <= |s| ==> forall j | 0 < j < k :: s[j] == s[1..][j - 1];
      } else {
        assert Decoded(s, k) != [];
      }
    }
  }

  lemma FrameSplit(p: seq<byte>, rest: seq<byte>)
    ensures Frame(p) + rest == [FLAG] + (Stuffed(WithCrc(p)) + ([FLAG] + rest))
  {
    hide WithCrc, Stuffed;
    var s := Stuffed(WithCrc(p));
    Regroup([FLAG] + s, [FLAG], rest);
    Regroup([FLAG], s, [FLAG] + rest);
  }

  lemma SameRounds(s: seq<byte>, t: seq<byte>, a: nat, b: nat)
    requires s == t && a == b
    ensures Decoded(s, a) == Decoded(t, b) && (Readable(s, a) <==> Readable(t, b))
  {
  }

  lemma FlagRound(s: seq<byte>, n: nat)
    ensures Decoded([FLAG] + s, n + 1) == Decoded(s, n) && (Readable([FLAG] + s, n + 1) <==> Readable(s, n))
  {
    assert ([FLAG] + s)[1..] == s;
  }

  lemma DecodeBetweenFlags(m: seq<byte>, rest: seq<byte>, k: nat)
    ensures Decoded([FLAG] + (Stuffed(m) + ([FLAG] + rest)), |m| + k + 2) == m + Decoded(rest, k)
    ensures Readable([FLAG] + (Stuffed(m) + ([FLAG] + rest)), |m| + k + 2) <==> Readable(rest, k)
  {
    hide *;
    FlagRound(rest, k);
    DecodeStuffed(m, [FLAG] + rest, k + 1);
    FlagRound(Stuffed(m) + ([FLAG] + rest), |m| + (k + 1));
  }

  /** Decoding a whole frame gives the packet, its check sequence, and then whatever as many rounds
      as there were escapes find behind the frame; and it is these that may leave the buffer. */
  lemma DecodeFrame(p: seq<byte>, rest: seq<byte>)
    ensures Decoded(Frame(p) + rest, |Frame(p)|) == WithCrc(p) + Decoded(rest, Escapes(WithCrc(p)))
    ensures Readable(Frame(p) + rest, |Frame(p)|) <==> Readable(rest, Escapes(WithCrc(p)))
  {
    hide *;
    var m := WithCrc(p);
    var k := Escapes(m);
    FrameSplit(p, rest);
    SameRounds(Frame(p) + rest, [FLAG] + (Stuffed(m) + ([FLAG] + rest)), |Frame(p)|, |m| + k + 2);
    DecodeBetweenFlags(m, rest, k);
  }

  /** The decoder returns exactly the packet and its check sequence if and only if every byte it
      reads too far is a flag: one byte for each escape in the frame. */
  lemma DecodeExactIff(p: seq<byte>, rest: seq<byte>)
    requires Readable(rest, Escapes(WithCrc(p)))
    ensures Decoded(Frame(p) + rest, |Frame(p)|) == WithCrc(p) <==> StartsWithFlags(rest, Escapes(WithCrc(p)))
  {
    hide WithCrc, Decoded, Frame;
    DecodeFrame(p, rest);
    SilentIff(rest, Escapes(WithCrc(p)));
    var tail := Decoded(rest, Escapes(WithCrc(p)));
    assert |WithCrc(p) + tail| == |WithCrc(p)| + |tail|;
    assert tail == [] ==> WithCrc(p) + tail == WithCrc(p);
  }

  /** So a packet that needs an escape is not returned exactly if no flag stands behind its frame. */
  lemma EscapeReadsPast(p: seq<byte>, rest: seq<byte>)
    requires (exists i :: 0 <= i < |p| && Special(p[i])) && rest != [] && rest[0] != FLAG
    requires Readable(rest, Escapes(WithCrc(p)))
    ensures Decoded(Frame(p) + rest, |Frame(p)|) != WithCrc(p)
  {
    var i :| 0 <= i < |p| && Special(p[i]);
    assert WithCrc(p)[i] == p[i];
    EscapesSome(WithCrc(p), i);
    DecodeExactIff(p, rest);
    hide WithCrc, Decoded, Frame, Escapes;
  }

  lemma {:induction false} EscapesSome(m: seq<byte>, i: nat)
    requires i < |m| && Special(m[i])
    ensures Escapes(m) > 0
  {
    if i < |m| - 1 { EscapesSome(m[..|m| - 1], i); }
  }

  /** For one: the packet of one flag byte, with zeros behind its frame. */
  lemma FlagPacketReadsPast()
    ensures var f := Frame([FLAG]); Decoded(f + [0, 0, 0], |f|) != WithCrc([FLAG])
  {
    assert Special([FLAG][0]);
    hide WithCrc, Decoded, Frame, Escapes;
    EscapeReadsPast([FLAG], [0, 0, 0]);
  }

  // ----- reassembly -----

  predicate AllFlags(s: seq<byte>) { forall i | 0 <= i < |s| :: s[i] == FLAG }

  predicate NoFlags(s: seq<byte>) { forall i | 0 <= i < |s| :: s[i] != FLAG }

  datatype Received = Frame(bytesIn: nat) | PortFailed

  lemma FlagIff(port: seq<byte>, flags: nat, body: nat, at: nat)
    requires 1 + flags + body <= |port| && 0 <= at < |port|
    requires AllFlags(port[1..1 + flags]) && NoFlags(port[1 + flags..1 + flags + body])
    ensures 1 <= at < 1 + flags ==> port[at] == FLAG
    ensures 1 + flags <= at < 1 + flags + body ==> port[at] != FLAG
  {
    assert 1 <= at < 1 + flags ==> port[1..1 + flags][at - 1] == port[at];
    assert 1 + flags <= at < 1 + flags + body ==> port[1 + flags..1 + flags + body][at - 1 - flags] == port[at];
  }

  /** SendSync's read loop: port is everything the device will send; a read behind its end fails.
      Flags met at position 1 are written over; the loop ends at the first later flag, or when
      MAX_PACKET_SIZE bytes have been stored without one, and then bytesIn is still 1. */
  method ReceiveFrame(port: seq<byte>, HDLCBuf: array<byte>, ghost flags: nat, ghost body: nat)
      returns (r: Received, used: nat)
    requires HDLCBuf.Length == MAX_PACKET_SIZE
    requires port != [] ==>
               && 1 + flags + body <= |port|
               && AllFlags(port[1..1 + flags]) && NoFlags(port[1 + flags..1 + flags + body])
               && (body == 0 ==> 1 + flags == |port|) && (1 + flags + body < |port| ==> port[1 + flags + body] == FLAG)
    modifies HDLCBuf
    ensures used <= |port| && (port == [] ==> r == PortFailed)
    ensures port != [] && body + 1 < MAX_PACKET_SIZE && 1 + flags + body < |port| ==>
              && r == Received.Frame(body + 2) && used == flags + body + 2
              && HDLCBuf[..body + 2] == [port[0]] + port[1 + flags..1 + flags + body] + [FLAG]
              && HDLCBuf[body + 2..] == old(HDLCBuf[body + 2..])
    ensures port != [] && body + 1 < MAX_PACKET_SIZE && 1 + flags + body == |port| ==> r == PortFailed
    ensures port != [] && body + 1 >= MAX_PACKET_SIZE ==> r == Received.Frame(1) && HDLCBuf[0] == port[0]
  {
    hide AllFlags, NoFlags;
    r, used := PortFailed, 0;
    var i := 0;
    var bytesIn := 0;
    ghost var z := 1 + flags;
    while i < MAX_PACKET_SIZE
      invariant 0 <= i <= MAX_PACKET_SIZE && used <= |port|
      invariant used > 0 ==> i > 0 && bytesIn == 1 && HDLCBuf[0] == port[0]
      invariant if used == 0 then i == 0 else if used <= z then i == 1 else i == used - z + 1
      invariant port != [] ==> used <= z + body
      invariant forall k | i < k < HDLCBuf.Length :: HDLCBuf[k] == old(HDLCBuf[k])
      invariant used > z ==> HDLCBuf[1..i] == port[z..used]
      decreases |port| - used
    {
      bytesIn := 1;
      if used == |port| {
        return PortFailed, used;
      }
      ghost var stored := if i > 0 then HDLCBuf[1..i] else [];
      FlagIff(port, flags, body, used);
      HDLCBuf[i] := port[used];
      used := used + 1;
      assert i > 0 ==> HDLCBuf[1..i + 1] == stored + [port[used - 1]];
      assert used > z ==> port[z..used] == port[z..used - 1] + [port[used - 1]];
      if HDLCBuf[i] == FLAG {
        if i > 1 {
          bytesIn := i + 1;
          break;
        } else {
          i := 0;
        }
      }
      i := i + 1;
    }
    r := Received.Frame(bytesIn);
  }

  /** The receiving half of SendSync, on a device that sends idle flags and then the frame of p. */
  method ReceivePacket(port: seq<byte>, HDLCBuf: array<byte>, in_buf: array<byte>, in_length: int,
                       ghost p: seq<byte>, ghost idle: seq<byte>, ghost more: seq<byte>)
    returns (status: Status, out_length: int)
    requires HDLCBuf.Length == MAX_PACKET_SIZE && |Frame(p)| <= MAX_PACKET_SIZE
    requires Readable(HDLCBuf[|Frame(p)|..], Escapes(WithCrc(p)))
    requires AllFlags(idle) && port == idle + Frame(p) + more
    requires |Frame(p)| <= in_length <= in_buf.Length && in_buf != HDLCBuf
    modifies HDLCBuf, in_buf
    ensures status == Ok && |p| + 2 <= out_length <= in_length
    ensures in_buf[..|p| + 2] == WithCrc(p)
    ensures out_length == |p| + 2 <==> StartsWithFlags(old(HDLCBuf[|Frame(p)|..]), Escapes(WithCrc(p)))
  {
    hide Frame, WithCrc, Decoded, Escapes;
    ghost var f := Frame(p);
    FramePosition(p, idle, more);
    var r, used := ReceiveFrame(port, HDLCBuf, |idle|, |f| - 2);
    ghost var rest := HDLCBuf[|f|..];
    FrameParts(p);
    assert HDLCBuf[..] == f + rest;
    DecodeFrame(p, rest);
    status, out_length := HDLCDecodePacket(HDLCBuf[..], r.bytesIn, in_buf, in_length);
    DecodeExactIff(p, rest);
    assert in_buf[..out_length][..|p| + 2] == in_buf[..|p| + 2];
  }

  lemma FrameParts(p: seq<byte>)
    ensures Frame(p) == [FLAG] + Frame(p)[1..|Frame(p)| - 1] + [FLAG]
  {
  }

  /** Where the reassembly loop finds the frame. */
  lemma FramePosition(p: seq<byte>, idle: seq<byte>, more: seq<byte>)
    requires AllFlags(idle)
    ensures var port, f, z := idle + Frame(p) + more, Frame(p), 1 + |idle|;
            && |f| >= 4 && z + |f| - 1 <= |port| && port[0] == FLAG
            && AllFlags(port[1..z]) && port[z..z + |f| - 2] == f[1..|f| - 1]
            && NoFlags(port[z..z + |f| - 2]) && port[z + |f| - 2] == FLAG
  {
    FlagsOnlyAtEnds(p);
  }
}
