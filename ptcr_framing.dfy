/**
 * Byte-stuffed framing of the QuickSet PTCR pan-tilt protocol.
 *
 * A command goes out as STX, its packet bytes with every reserved byte
 * escaped, then ETX. A response comes back as ACK or NAK, escaped bytes,
 * then ETX. An escaped byte is the pair ESC, b | 0x80; the receiver undoes
 * it with & 0x7f.
 */
module PtcrFraming {

  /** A byte as the unsigned value 0..255 that the C code indexes the escape table with. */
  newtype byte = x: int | 0 <= x < 256

  /** b | 0x80 */
  function SetHighBit(b: byte): byte
  {
    if b < 0x80 then b + 0x80 else b
  }

  /** b & 0x7f */
  function ClearHighBit(b: byte): byte
  {
    if b < 0x80 then b else b - 0x80
  }

  /**
   * The five reserved control bytes. Their numeric values belong to the
   * packet module; the codec only relies on `Valid()`.
   */
  datatype Controls = Controls(ack: byte, nak: byte, stx: byte, etx: byte, esc: byte)
  {
    /** Pairwise distinct, and each below 0x80 so that b | 0x80 is never reserved. */
    predicate Valid()
    {
      && ack != nak && ack != stx && ack != etx && ack != esc
      && nak != stx && nak != etx && nak != esc
      && stx != etx && stx != esc
      && etx != esc
      && ack < 0x80 && nak < 0x80 && stx < 0x80 && etx < 0x80 && esc < 0x80
    }
  }

  /** The must-be-escaped relation that the escape table holds for each byte value. */
  predicate IsReserved(c: Controls, b: byte)
  {
    b == c.ack || b == c.nak || b == c.stx || b == c.etx || b == c.esc
  }

  /** How many bytes of `p` are reserved. */
  function ReservedCount(c: Controls, p: seq<byte>): nat
  {
    if p == [] then 0 else (if IsReserved(c, p[0]) then 1 else 0) + ReservedCount(c, p[1..])
  }

  // ---------------------------------------------------------------- encoding

  /** The wire form of one packet byte. */
  function EscapeByte(c: Controls, b: byte): (e: seq<byte>)
    ensures 1 <= |e| <= 2 && (|e| == 2 <==> IsReserved(c, b))
    ensures |e| == 1 ==> e[0] == b
    ensures |e| == 2 ==> e[0] == c.esc
    ensures c.Valid() && |e| == 2 ==> !IsReserved(c, e[1]) && ClearHighBit(e[1]) == b
  {
    if IsReserved(c, b) then [c.esc, SetHighBit(b)] else [b]
  }

  /** The escaped packet bytes, in order; each byte grows to at most two. */
  function EscapeBody(c: Controls, p: seq<byte>): (e: seq<byte>)
    ensures |p| <= |e| <= 2 * |p|
  {
    if p == [] then [] else EscapeByte(c, p[0]) + EscapeBody(c, p[1..])
  }

  /** The whole command frame as it is written to the wire. */
  function Frame(c: Controls, p: seq<byte>): (f: seq<byte>)
    ensures |p| + 2 <= |f| <= 2 * |p| + 2
    ensures f[0] == c.stx && f[|f| - 1] == c.etx && f[1..|f| - 1] == EscapeBody(c, p)
  {
    [c.stx] + EscapeBody(c, p) + [c.etx]
  }

  lemma {:induction false} EscapeBodyAppend(c: Controls, a: seq<byte>, b: seq<byte>)
    ensures EscapeBody(c, a + b) == EscapeBody(c, a) + EscapeBody(c, b)
  {
    if a == [] {
      assert a + b == b;
    } else {
      assert (a + b)[1..] == a[1..] + b;
      EscapeBodyAppend(c, a[1..], b);
    }
  }

  /** Escaping the bytes one at a time from the left gives the escaped body. */
  lemma EscapeBodySnoc(c: Controls, p: seq<byte>, i: nat)
    requires i < |p|
    ensures EscapeBody(c, p[..i + 1]) == EscapeBody(c, p[..i]) + EscapeByte(c, p[i])
  {
    assert p[..i + 1] == p[..i] + [p[i]];
    EscapeBodyAppend(c, p[..i], [p[i]]);
    assert EscapeBody(c, [p[i]]) == EscapeByte(c, p[i]) + EscapeBody(c, []);
  }

  /** The escaped form of the first `n` packet bytes, built from the left as the escape loop does. */
  function EscapePrefix(c: Controls, p: seq<byte>, n: nat): (e: seq<byte>)
    requires n <= |p|
    ensures |e| <= 2 * n
  {
    if n == 0 then [] else EscapePrefix(c, p, n - 1) + EscapeByte(c, p[n - 1])
  }

  /** Escaping from the left agrees with the escaped body of the prefix. */
  lemma {:induction false} EscapePrefixIsBody(c: Controls, p: seq<byte>, n: nat)
    requires n <= |p|
    ensures EscapePrefix(c, p, n) == EscapeBody(c, p[..n])
  {
    if n > 0 {
      EscapePrefixIsBody(c, p, n - 1);
      EscapeBodySnoc(c, p, n - 1);
    }
  }

  /** Every reserved byte adds exactly one ESC to the body. */
  lemma {:induction false} EscapeBodyLength(c: Controls, p: seq<byte>)
    ensures |EscapeBody(c, p)| == |p| + ReservedCount(c, p)
  {
    if p != [] {
      EscapeBodyLength(c, p[1..]);
    }
  }

  /**
   * The frame is the payload plus one byte per reserved byte plus the two
   * delimiters, and a packet under 64 bytes fits the 128-byte transmit buffer.
   */
  lemma FrameLength(c: Controls, p: seq<byte>)
    ensures |Frame(c, p)| == |p| + ReservedCount(c, p) + 2
    ensures |p| < 64 ==> |Frame(c, p)| <= 128
  {
    EscapeBodyLength(c, p);
  }

  /**
   * In an escaped body a reserved value occurs only as ESC, and the byte that
   * follows it has its high bit set, so it is not reserved.
   */
  lemma {:induction false} EscapeBodyShape(c: Controls, p: seq<byte>)
    requires c.Valid()
    ensures forall i | 0 <= i < |EscapeBody(c, p)| && IsReserved(c, EscapeBody(c, p)[i]) ::
              EscapeBody(c, p)[i] == c.esc && i + 1 < |EscapeBody(c, p)| &&
              !IsReserved(c, EscapeBody(c, p)[i + 1])
  {
    if p != [] {
      EscapeBodyShape(c, p[1..]);
      var h, t := EscapeByte(c, p[0]), EscapeBody(c, p[1..]);
      assert EscapeBody(c, p) == h + t;
      forall i | 0 <= i < |h + t| && IsReserved(c, (h + t)[i])
        ensures (h + t)[i] == c.esc && i + 1 < |h + t| && !IsReserved(c, (h + t)[i + 1])
      {
        if i >= |h| {
          assert (h + t)[i] == t[i - |h|];
          assert i + 1 < |h + t| ==> (h + t)[i + 1] == t[i + 1 - |h|];
        }
      }
    }
  }

  /** The only raw ETX in a command frame is its last byte. */
  lemma FrameEndsAtEtx(c: Controls, p: seq<byte>)
    requires c.Valid()
    ensures Frame(c, p)[|Frame(c, p)| - 1] == c.etx
    ensures forall i | 0 <= i < |Frame(c, p)| - 1 :: Frame(c, p)[i] != c.etx
  {
    EscapeBodyShape(c, p);
    var e := EscapeBody(c, p);
    forall i | 0 <= i < |Frame(c, p)| - 1 ensures Frame(c, p)[i] != c.etx {
      if i > 0 {
        assert Frame(c, p)[i] == e[i - 1];
      }
    }
  }

  // ---------------------------------------------------------------- decoding

  /**
   * The outcome of scanning a receive buffer for the terminating ETX:
   * the unescaped bytes before it and its index, or running off the buffer.
   */
  datatype Scan = Terminated(body: seq<byte>, end: nat) | Unterminated

  function Prepend(pre: seq<byte>, s: Scan): Scan
  {
    match s
    case Terminated(body, end) => Terminated(pre + body, end)
    case Unterminated => Unterminated
  }

  lemma PrependPrepend(a: seq<byte>, b: seq<byte>, s: Scan)
    ensures Prepend(a, Prepend(b, s)) == Prepend(a + b, s)
  {
    if s.Terminated? {
      assert a + (b + s.body) == (a + b) + s.body;
    }
  }

  /**
   * Scanning from index `i`: an ESC takes the next byte whatever it is and
   * clears its high bit; an unescaped ETX stops the scan. Never produces more
   * bytes than it consumes.
   */
  function UnescapeFrom(c: Controls, buf: seq<byte>, i: nat): (s: Scan)
    requires i <= |buf|
    ensures s.Terminated? ==> i <= s.end < |buf| && buf[s.end] == c.etx && |s.body| <= s.end - i
    decreases |buf| - i
  {
    if i == |buf| then Unterminated
    else if buf[i] == c.etx then Terminated([], i)
    else if buf[i] == c.esc then
      if i + 1 == |buf| then Unterminated
      else Prepend([ClearHighBit(buf[i + 1])], UnescapeFrom(c, buf, i + 2))
    else Prepend([buf[i]], UnescapeFrom(c, buf, i + 1))
  }

  /** What the decoder makes of a receive buffer. */
  datatype Decoding = NotAcknowledged | RanOff | Decoded(frame: seq<byte>)

  /**
   * The response decoder: the buffer must start with ACK or NAK; the decoded
   * frame keeps that byte, unescapes up to the first unescaped ETX and ends
   * with ETX.
   */
  function Decode(c: Controls, buf: seq<byte>): (d: Decoding)
    requires c.Valid()
    ensures d.NotAcknowledged? <==> |buf| == 0 || (buf[0] != c.ack && buf[0] != c.nak)
    ensures d.Decoded? ==>
              2 <= |d.frame| && d.frame[0] == buf[0] && d.frame[|d.frame| - 1] == c.etx
  {
    if |buf| == 0 || (buf[0] != c.ack && buf[0] != c.nak) then NotAcknowledged
    else match UnescapeFrom(c, buf, 0)
      case Unterminated => RanOff
      case Terminated(body, _) => Decoded(body + [c.etx])
  }

  /** A decoded frame is never longer than the bytes it was decoded from, ETX included. */
  lemma DecodeShrinks(c: Controls, buf: seq<byte>)
    requires c.Valid() && Decode(c, buf).Decoded?
    ensures UnescapeFrom(c, buf, 0).Terminated?
    ensures |Decode(c, buf).frame| <= UnescapeFrom(c, buf, 0).end + 1
  {
  }

  /**
   * Unescaping an escaped body followed by ETX gives the body back, whatever
   * lies after the ETX.
   */
  lemma {:induction false} UnescapeEscaped(c: Controls, p: seq<byte>, buf: seq<byte>, i: nat)
    requires c.Valid()
    requires i + |EscapeBody(c, p)| < |buf|
    requires forall k | 0 <= k < |EscapeBody(c, p)| :: buf[i + k] == EscapeBody(c, p)[k]
    requires buf[i + |EscapeBody(c, p)|] == c.etx
    ensures UnescapeFrom(c, buf, i) == Terminated(p, i + |EscapeBody(c, p)|)
  {
    if p != [] {
      var h, t := EscapeByte(c, p[0]), EscapeBody(c, p[1..]);
      assert EscapeBody(c, p) == h + t;
      forall k | 0 <= k < |t| ensures buf[i + |h| + k] == t[k] {
        assert buf[i + (|h| + k)] == (h + t)[|h| + k];
      }
      forall k | 0 <= k < |h| ensures buf[i + k] == h[k] {
        assert buf[i + k] == (h + t)[k];
      }
      UnescapeEscaped(c, p[1..], buf, i + |h|);
      UnescapeByte(c, p[0], buf, i);
      assert [p[0]] + p[1..] == p;
      assert UnescapeFrom(c, buf, i) == Prepend([p[0]], Terminated(p[1..], i + |h| + |t|));
    } else {
      assert buf[i] == c.etx;
    }
  }

  /** One escaped byte at index `i` unescapes to that byte. */
  lemma UnescapeByte(c: Controls, b: byte, buf: seq<byte>, i: nat)
    requires c.Valid()
    requires i + |EscapeByte(c, b)| <= |buf|
    requires forall k | 0 <= k < |EscapeByte(c, b)| :: buf[i + k] == EscapeByte(c, b)[k]
    ensures UnescapeFrom(c, buf, i) == Prepend([b], UnescapeFrom(c, buf, i + |EscapeByte(c, b)|))
  {
    assert buf[i + 0] == EscapeByte(c, b)[0];
    if IsReserved(c, b) {
      assert buf[i + 1] == EscapeByte(c, b)[1];
      assert ClearHighBit(SetHighBit(b)) == b;
    }
  }

  /**
   * Round trip: a response made of ACK or NAK, an escaped body and ETX decodes
   * to that leading byte, the original body and ETX, for every body.
   */
  lemma RoundTrip(c: Controls, lead: byte, p: seq<byte>, rest: seq<byte>)
    requires c.Valid() && (lead == c.ack || lead == c.nak)
    ensures Decode(c, [lead] + EscapeBody(c, p) + [c.etx] + rest) == Decoded([lead] + p + [c.etx])
  {
    var e := EscapeBody(c, p);
    var buf := [lead] + e + [c.etx] + rest;
    assert forall k | 0 <= k < |e| :: buf[1 + k] == e[k];
    UnescapeEscaped(c, p, buf, 1);
  }

  /**
   * An ESC right before the terminating ETX makes the decoder take that ETX as
   * data and keep scanning: the received frame ACK, ESC, ETX on its own runs
   * off the end of the buffer.
   */
  lemma EscapeBeforeEtxRunsOff(c: Controls)
    requires c.Valid()
    ensures Decode(c, [c.ack, c.esc, c.etx]) == RanOff
  {
    var a := [c.ack, c.esc, c.etx];
    assert UnescapeFrom(c, a, 1) == Unterminated;
  }

  /**
   * Wherever the scan meets ESC followed by ETX, it takes that ETX as data
   * and does not stop there: the scan goes on two bytes further.
   */
  lemma EscapeTakesEtx(c: Controls, buf: seq<byte>, i: nat)
    requires c.Valid() && i + 1 < |buf| && buf[i] == c.esc && buf[i + 1] == c.etx
    ensures UnescapeFrom(c, buf, i) == Prepend([c.etx], UnescapeFrom(c, buf, i + 2))
    ensures UnescapeFrom(c, buf, i).Terminated? ==> UnescapeFrom(c, buf, i).end > i + 1
  {
    assert ClearHighBit(c.etx) == c.etx;
  }

  /**
   * With stale bytes behind the received frame ACK, ESC, ETX, the decoder
   * keeps that ETX as data and copies the stale bytes into the response up
   * to the next ETX it finds.
   */
  lemma EscapeBeforeEtxReadsStale(c: Controls, stale: byte)
    requires c.Valid() && stale != c.etx && stale != c.esc
    ensures Decode(c, [c.ack, c.esc, c.etx, stale, c.etx])
            == Decoded([c.ack, c.etx, stale, c.etx])
  {
    var b := [c.ack, c.esc, c.etx, stale, c.etx];
    assert b[4] == c.etx && b[3] == stale && b[2] == c.etx && b[1] == c.esc && b[0] == c.ack;
    assert UnescapeFrom(c, b, 4) == Terminated([], 4);
    assert UnescapeFrom(c, b, 3) == Prepend([stale], UnescapeFrom(c, b, 4));
    assert UnescapeFrom(c, b, 1) == Prepend([ClearHighBit(c.etx)], UnescapeFrom(c, b, 3));
    assert ClearHighBit(c.etx) == c.etx;
    assert UnescapeFrom(c, b, 0) == Prepend([c.ack], UnescapeFrom(c, b, 1));
  }
}
