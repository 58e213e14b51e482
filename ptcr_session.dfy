/**
 * The PTCR protocol session: one request/response exchange at a time over a
 * link, through fixed-size buffers (128 bytes to transmit, 128 to receive,
 * 64 for the unescaped response), guarded by the pending-command marker.
 */
module PtcrSession {
  import opened Wrappers
  import opened PtcrFraming
  import opened PtcrLink

  /**
   * Where the response packet keeps its command id and its footer end marker.
   * The packet layouts themselves belong to the packet module.
   */
  datatype Shape = Shape(idAt: nat, etxAt: nat)
  {
    /** Both fields lie inside the 64-byte response buffer. */
    predicate Fits() { idAt < 64 && etxAt < 64 }
  }

  /** The exceptions `send` can raise. */
  datatype Error =
    | CommandPending(id: byte, pending: byte)  // a second send while an exchange is unfinished
    | SendFailed                               // ::write reported failure
    | ConnectionFailed                         // ::read reported failure
    | ConnectionClosed                         // ::read reported end of stream
    | ReceiveOverrun                           // a byte arrived with the receive buffer full
    | ResponseOverrun                          // unescaping ran past the receive or response buffer

  /** How the unescape step ends. */
  datatype UnescapeStatus = Unescaped | Rejected | Overrun

  /** The response buffer after a decoded frame `d` was copied over the front of `prev`. */
  function Overlay(d: seq<byte>, prev: seq<byte>): (r: seq<byte>)
    requires |d| <= |prev|
    ensures |r| == |prev| && r[..|d|] == d && r[|d|..] == prev[|d|..]
  {
    d + prev[|d|..]
  }

  /** The three response checks: command id, footer end marker, LRC. */
  predicate Coherent(c: Controls, id: byte, shape: Shape, lrcOk: seq<byte> -> bool, resp: seq<byte>)
    requires shape.Fits() && |resp| == 64
  {
    resp[shape.idAt] == id && resp[shape.etxAt] == c.etx && lrcOk(resp)
  }

  /**
   * The id and footer checks look at the decoded frame itself when it covers
   * both offsets; when it is shorter they look at bytes left over from an
   * earlier response.
   */
  lemma CoherentReadsFrame(c: Controls, id: byte, shape: Shape, lrcOk: seq<byte> -> bool,
                           d: seq<byte>, prev: seq<byte>)
    requires shape.Fits() && |d| <= |prev| == 64
    ensures shape.idAt < |d| && shape.etxAt < |d| ==>
              (Coherent(c, id, shape, lrcOk, Overlay(d, prev))
               <==> d[shape.idAt] == id && d[shape.etxAt] == c.etx && lrcOk(d + prev[|d|..]))
    ensures |d| <= shape.idAt ==> Overlay(d, prev)[shape.idAt] == prev[shape.idAt]
    ensures |d| <= shape.etxAt ==> Overlay(d, prev)[shape.etxAt] == prev[shape.etxAt]
  {
  }

  /**
   * What `send` returns once its frame is written, given how the receive
   * loop ended, the receive buffer and the response buffer before unescaping.
   * A timeout, a reply not led by ACK or NAK and a reply failing one of the
   * three checks are "no response"; each error has exactly one cause.
   */
  function Reply(c: Controls, id: byte, shape: Shape, lrcOk: seq<byte> -> bool,
                 outcome: RxOutcome, rx: seq<byte>, prev: seq<byte>): (r: Result<Option<seq<byte>>, Error>)
    requires c.Valid() && shape.Fits() && |prev| == 64
    ensures r.Ok? && r.value.Some? ==>
              && outcome == GotEtx && Decode(c, rx).Decoded?
              && |Decode(c, rx).frame| <= 64
              && r.value.value == Overlay(Decode(c, rx).frame, prev)
              && Coherent(c, id, shape, lrcOk, r.value.value)
    ensures r.Err? ==> r.error in {ConnectionFailed, ConnectionClosed, ReceiveOverrun, ResponseOverrun}
    ensures r == Err(ConnectionFailed) <==> outcome == LinkFailed
    ensures r == Err(ConnectionClosed) <==> outcome == LinkClosed
    ensures r == Err(ReceiveOverrun) <==> outcome == RxOverrun
    ensures r == Err(ResponseOverrun) <==>
              outcome == GotEtx && (Decode(c, rx).RanOff? || (Decode(c, rx).Decoded? && |Decode(c, rx).frame| > 64))
    ensures outcome == TimedOut ==> r == Ok(None)
    ensures outcome == GotEtx && Decode(c, rx).NotAcknowledged? ==> r == Ok(None)
    ensures outcome == GotEtx && Decode(c, rx).Decoded? && |Decode(c, rx).frame| <= 64 ==>
              && r.Ok?
              && (r.value.Some? <==> Coherent(c, id, shape, lrcOk, Overlay(Decode(c, rx).frame, prev)))
  {
    match outcome
    case LinkFailed => Err(ConnectionFailed)
    case LinkClosed => Err(ConnectionClosed)
    case RxOverrun => Err(ReceiveOverrun)
    case TimedOut => Ok(None)
    case GotEtx =>
      match Decode(c, rx)
      case NotAcknowledged => Ok(None)
      case RanOff => Err(ResponseOverrun)
      case Decoded(d) =>
        if |d| > |prev| then Err(ResponseOverrun)
        else if Coherent(c, id, shape, lrcOk, Overlay(d, prev)) then Ok(Some(Overlay(d, prev)))
        else Ok(None)
  }

  /** An escaped body never holds a raw ETX. */
  lemma EscapeBodyHasNoEtx(c: Controls, p: seq<byte>)
    requires c.Valid()
    ensures c.etx !in EscapeBody(c, p)
  {
    EscapeBodyShape(c, p);
    var e := EscapeBody(c, p);
    forall i | 0 <= i < |e| ensures e[i] != c.etx {
      if IsReserved(c, e[i]) {
        assert e[i] == c.esc;
      }
    }
  }

  /**
   * End to end: a device that answers with ACK or NAK, an escaped body and
   * ETX is received as exactly that frame, and the reply is that leading
   * byte, the body and ETX, laid over the old response buffer, whenever the
   * three checks pass, and "no response" otherwise; stale bytes behind the
   * frame in the receive buffer do not matter.
   */
  lemma WellFormedReply(c: Controls, id: byte, shape: Shape, lrcOk: seq<byte> -> bool,
                        lead: byte, body: seq<byte>, evs: seq<RxEvent>, stale: seq<byte>, prev: seq<byte>)
    requires c.Valid() && shape.Fits() && |prev| == 64 && (lead == c.ack || lead == c.nak)
    requires |body| <= 62 && |[lead] + EscapeBody(c, body) + [c.etx]| <= 128
    requires Delivers(evs, [lead] + EscapeBody(c, body) + [c.etx])
    ensures var frame := [lead] + EscapeBody(c, body) + [c.etx];
            var resp := Overlay([lead] + body + [c.etx], prev);
            && Listen(c.etx, evs, 128) == Reception(GotEtx, frame, |frame|)
            && Reply(c, id, shape, lrcOk, GotEtx, frame + stale, prev)
               == if Coherent(c, id, shape, lrcOk, resp) then Ok(Some(resp)) else Ok(None)
  {
    var e := EscapeBody(c, body);
    var frame := [lead] + e + [c.etx];
    EscapeBodyHasNoEtx(c, body);
    forall j | 0 <= j < |frame| - 1 ensures frame[j] != c.etx {
      if j > 0 {
        assert frame[j] == e[j - 1];
      }
    }
    ListenFrame(c.etx, frame, evs, 128);
    RoundTrip(c, lead, body, stale);
  }

  /** Writing `x` just after the bytes `pre` already written over `a`. */
  lemma Overwrite<T>(a: seq<T>, pre: seq<T>, x: T)
    requires |pre| < |a|
    ensures (pre + a[|pre|..])[|pre| := x] == (pre + [x]) + a[|pre| + 1..]
  {
  }

  lemma Associative<T>(a: seq<T>, b: seq<T>, c: seq<T>)
    ensures (a + b) + c == a + (b + c)
  {
  }

  /** A buffer whose first |f| cells were overwritten with `f` and whose other cells are as `before`. */
  lemma Filled<T>(a: seq<T>, before: seq<T>, f: seq<T>)
    requires |a| == |before| && |f| <= |a|
    requires forall k | 0 <= k < |f| :: a[k] == f[k]
    requires forall k | |f| <= k < |a| :: a[k] == before[k]
    ensures a == f + before[|f|..]
  {
  }

  /** What was written before, then the next n bytes of `a` after its first i. */
  lemma AppendSlices<T>(w: seq<T>, a: seq<T>, i: nat, n: nat)
    requires i + n <= |a|
    ensures (w + a[..i]) + a[i..][..n] == w + a[..i + n]
  {
    assert a[..i + n] == a[..i] + a[i..][..n];
  }

  /** escaped_: builds the table of byte values that must be escaped. */
  method InitEscaped(c: Controls) returns (e: array<bool>)
    ensures fresh(e) && e.Length == 256
    ensures forall i | 0 <= i < 256 :: e[i] == IsReserved(c, i as byte)
  {
    e := new bool[256];
    var i := 0;
    while i < e.Length
      invariant 0 <= i <= e.Length
      invariant forall k | 0 <= k < i :: !e[k]
    {
      e[i] := false;
      i := i + 1;
    }
    e[c.ack as int] := true;
    e[c.nak as int] := true;
    e[c.stx as int] := true;
    e[c.etx as int] := true;
    e[c.esc as int] := true;
  }

  /** The escape table marks exactly five of the 256 byte values. */
  lemma ReservedExactlyFive(c: Controls)
    requires c.Valid()
    ensures |set b: byte | IsReserved(c, b)| == 5
  {
    var s := set b: byte | IsReserved(c, b);
    var five := {c.ack, c.nak, c.stx, c.etx, c.esc};
    assert s == five;
  }

  class Session {
    /** The reserved control byte values. */
    const ctl: Controls
    /** The transport's byte stream. */
    const link: Link
    /** escaped_: for each byte value, whether it must be escaped. */
    const escaped: array<bool>
    /** txbuf_ and txsize_: the escaped command frame. */
    const txbuf: array<byte>
    var txsize: nat
    /** rxbuf_: the bytes received for the current response. */
    const rxbuf: array<byte>
    /** response_: the unescaped response packet. */
    const response: array<byte>
    /** command_pending: the id of the command whose response is awaited. */
    var commandPending: Option<byte>

    /** The escape table marks exactly the reserved byte values. */
    ghost predicate TableOk()
      reads escaped
    {
      escaped.Length == 256 && forall i | 0 <= i < 256 :: escaped[i] == IsReserved(ctl, i as byte)
    }

    ghost predicate Valid()
      reads this, escaped
    {
      && ctl.Valid() && TableOk()
      && txbuf.Length == 128 && rxbuf.Length == 128 && response.Length == 64
      && txbuf != rxbuf && txbuf != response && rxbuf != response
      && txsize <= txbuf.Length
    }

    constructor (c: Controls, link: Link)
      requires c.Valid()
      ensures Valid() && ctl == c && this.link == link && commandPending == None
      ensures fresh(escaped) && fresh(txbuf) && fresh(rxbuf) && fresh(response)
    {
      var table := InitEscaped(c);
      ctl, this.link, escaped := c, link, table;
      txbuf := new byte[128];
      rxbuf := new byte[128];
      response := new byte[64];
      txsize := 0;
      commandPending := None;
    }

    /**
     * escape_: writes STX, the escaped bytes of `p` and ETX to the transmit
     * buffer. `p` stands for the packet's bytes from its header address up
     * to, not including, its footer ETX; that footer byte is never escaped,
     * and the constant ETX is written in its place.
     */
    method Escape(p: seq<byte>)
      requires TableOk() && txbuf.Length == 128 && |p| < 64
      modifies this`txsize, txbuf
      ensures txsize == |Frame(ctl, p)|
      ensures txbuf[..] == Frame(ctl, p) + old(txbuf[..])[txsize..]
    {
      txbuf[0] := ctl.stx;
      ghost var w: seq<byte> := [ctl.stx];
      var cur := 1;
      var s := 0;
      while s < |p|
        invariant 0 <= s <= |p|
        invariant w == [ctl.stx] + EscapePrefix(ctl, p, s)
        invariant cur == |w| <= 1 + 2 * s
        invariant forall k | 0 <= k < cur :: txbuf[k] == w[k]
        invariant forall k | cur <= k < txbuf.Length :: txbuf[k] == old(txbuf[k])
      {
        ghost var piece := EscapeByte(ctl, p[s]);
        if escaped[p[s] as int] {
          txbuf[cur] := ctl.esc;
          txbuf[cur + 1] := SetHighBit(p[s]);
          cur := cur + 2;
        } else {
          txbuf[cur] := p[s];
          cur := cur + 1;
        }
        Associative([ctl.stx], EscapePrefix(ctl, p, s), piece);
        w, s := w + piece, s + 1;
      }
      txbuf[cur] := ctl.etx;
      txsize := cur + 1;
      w := w + [ctl.etx];
      EscapePrefixIsBody(ctl, p, |p|);
      assert p[..|p|] == p;
      Filled(txbuf[..], old(txbuf[..]), w);
    }

    /** send_: writes the first `txsize` bytes of the transmit buffer, resuming after partial writes. */
    method SendFrame() returns (ok: bool)
      requires txsize <= txbuf.Length
      modifies link
      ensures var d := Transmission(old(link.writes), txsize);
              && ok == d.ok
              && link.wire == old(link.wire) + txbuf[..d.delivered]
              && link.writes == old(link.writes)[d.used..]
              && link.events == old(link.events)
    {
      ghost var all := link.writes;
      ghost var left := all;
      var size := txsize;
      var data := txbuf[..size];
      var sent: nat := 0;
      ghost var used: nat := 0;
      TransmittingResumes(all, size, 0, 0);
      while sent < size
        invariant sent <= size && used <= |all| && left == all[used..]
        invariant link.writes == left && link.events == old(link.events)
        invariant link.wire == old(link.wire) + data[..sent]
        invariant Transmission(all, size) == Transmitting(left, size, sent, used)
        decreases size - sent
      {
        var n := link.Write(data[sent..]);
        if n < 0 {
          assert data[..sent] == txbuf[..sent];
          return false;
        }
        AppendSlices(old(link.wire), data, sent, n);
        sent, used, left := sent + n, used + (|left| - |Remaining(left)|), Remaining(left);
      }
      assert data[..sent] == txbuf[..sent];
      return true;
    }

    /** receive_: reads one byte at a time into the receive buffer until ETX, a timeout or a failure. */
    method Receive() returns (outcome: RxOutcome)
      modifies rxbuf, link
      ensures var rx := Listen(ctl.etx, old(link.events), rxbuf.Length);
              && outcome == rx.outcome
              && rxbuf[..] == rx.bytes + old(rxbuf[..])[|rx.bytes|..]
              && link.events == old(link.events)[rx.used..]
              && link.writes == old(link.writes) && link.wire == old(link.wire)
    {
      var cur := 0;
      ghost var got: seq<byte> := [];
      ghost var used := 0;
      ListeningResumes(ctl.etx, link.events, rxbuf.Length, [], 0);
      assert [] + Listen(ctl.etx, link.events, rxbuf.Length).bytes == Listen(ctl.etx, link.events, rxbuf.Length).bytes;
      while true
        invariant cur == |got| <= rxbuf.Length && used <= |old(link.events)|
        invariant link.events == old(link.events)[used..]
        invariant link.writes == old(link.writes) && link.wire == old(link.wire)
        invariant forall k | 0 <= k < cur :: rxbuf[k] == got[k]
        invariant forall k | cur <= k < rxbuf.Length :: rxbuf[k] == old(rxbuf[k])
        invariant Listen(ctl.etx, old(link.events), rxbuf.Length)
                  == Listening(ctl.etx, link.events, rxbuf.Length - cur, got, used)
        decreases |link.events|
      {
        var ready := link.Wait();
        if !ready {
          outcome, used := TimedOut, |old(link.events)| - |link.events|;
          break;
        }
        ghost var ev := link.events[0];
        var n, b := link.Read();
        used := used + 1;
        if n <= 0 {
          assert ev == if n < 0 then ReadFailed else Closed;
          outcome := if n < 0 then LinkFailed else LinkClosed;
          break;
        }
        assert ev == Arrived(b);
        if cur == rxbuf.Length {
          outcome := RxOverrun;
          break;
        }
        rxbuf[cur] := b;
        cur, got := cur + 1, got + [b];
        if b == ctl.etx {
          outcome := GotEtx;
          break;
        }
      }
      assert Listen(ctl.etx, old(link.events), rxbuf.Length) == Reception(outcome, got, used);
      Filled(rxbuf[..], old(rxbuf[..]), got);
    }

    /**
     * unescape_: copies the receive buffer, from its ACK or NAK byte up to the
     * first unescaped ETX, into the response buffer, undoing the escapes and
     * ending with ETX. The scan covers the whole receive buffer, stale bytes
     * of earlier exchanges included.
     */
    method Unescape() returns (status: UnescapeStatus)
      requires ctl.Valid() && rxbuf.Length == 128 && response.Length == 64
      modifies response
      ensures match Decode(ctl, rxbuf[..])
              case NotAcknowledged => status == Rejected && response[..] == old(response[..])
              case RanOff => status == Overrun
              case Decoded(d) =>
                if |d| <= response.Length
                then status == Unescaped && response[..] == Overlay(d, old(response[..]))
                else status == Overrun
    {
      if rxbuf[0] != ctl.ack && rxbuf[0] != ctl.nak {
        return Rejected;
      }
      ghost var buf := rxbuf[..];
      ghost var out: seq<byte> := [];
      var s, cur := 0, 0;
      while true
        invariant 0 <= s <= rxbuf.Length && cur == |out| <= response.Length
        invariant response[..] == out + old(response[..])[cur..]
        invariant UnescapeFrom(ctl, buf, 0) == Prepend(out, UnescapeFrom(ctl, buf, s))
        decreases rxbuf.Length - s
      {
        if s == rxbuf.Length {
          return Overrun;
        }
        if rxbuf[s] == ctl.etx {
          break;
        }
        if cur == response.Length {
          return Overrun;
        }
        var x;
        if rxbuf[s] == ctl.esc {
          if s + 1 == rxbuf.Length {
            return Overrun;
          }
          x := ClearHighBit(rxbuf[s + 1]);
          response[cur] := x;
          s := s + 2;
        } else {
          x := rxbuf[s];
          response[cur] := x;
          s := s + 1;
        }
        Overwrite(old(response[..]), out, x);
        PrependPrepend(out, [x], UnescapeFrom(ctl, buf, s));
        out, cur := out + [x], cur + 1;
      }
      if cur == response.Length {
        return Overrun;
      }
      response[cur] := ctl.etx;
      Overwrite(old(response[..]), out, ctl.etx);
      assert out + [] == out;
      return Unescaped;
    }

    /**
     * send: one exchange. Refuses to start while a command is pending; marks
     * the command pending once its frame is written; clears the mark once the
     * receive loop returns normally; then decodes and checks the reply.
     * `packet` is the escaped range of the command packet, as for `Escape`;
     * the whole packet is under 64 bytes, so the range is too.
     */
    method Send(id: byte, packet: seq<byte>, shape: Shape, lrcOk: seq<byte> -> bool)
      returns (r: Result<Option<seq<byte>>, Error>)
      requires Valid() && |packet| < 64 && shape.Fits()
      modifies this, txbuf, rxbuf, response, link
      ensures Valid()
      ensures old(commandPending).Some? ==>
                && r == Err(CommandPending(id, old(commandPending).value))
                && commandPending == old(commandPending) && txsize == old(txsize)
                && unchanged(link) && unchanged(txbuf) && unchanged(rxbuf) && unchanged(response)
      ensures old(commandPending).None? ==>
                var frame := Frame(ctl, packet);
                var tx := Transmission(old(link.writes), |frame|);
                && txbuf[..txsize] == frame
                && link.wire == old(link.wire) + frame[..tx.delivered]
                && link.writes == old(link.writes)[tx.used..]
      ensures old(commandPending).None? && !Transmission(old(link.writes), |Frame(ctl, packet)|).ok ==>
                && r == Err(SendFailed) && commandPending == None
                && link.events == old(link.events) && unchanged(rxbuf) && unchanged(response)
      ensures old(commandPending).None? && Transmission(old(link.writes), |Frame(ctl, packet)|).ok ==>
                var rx := Listen(ctl.etx, old(link.events), rxbuf.Length);
                && link.events == old(link.events)[rx.used..]
                && rxbuf[..] == rx.bytes + old(rxbuf[..])[|rx.bytes|..]
                && commandPending == (if rx.outcome in {LinkFailed, LinkClosed, RxOverrun} then Some(id) else None)
                && r == Reply(ctl, id, shape, lrcOk, rx.outcome, rxbuf[..], old(response[..]))
                && (rx.outcome != GotEtx || Decode(ctl, rxbuf[..]).NotAcknowledged? ==>
                      response[..] == old(response[..]))
                && (rx.outcome == GotEtx && Decode(ctl, rxbuf[..]).Decoded? &&
                    |Decode(ctl, rxbuf[..]).frame| <= 64 ==>
                      response[..] == Overlay(Decode(ctl, rxbuf[..]).frame, old(response[..])))
    {
      if commandPending.Some? {
        return Err(CommandPending(id, commandPending.value));
      }
      Escape(packet);
      ghost var frame := Frame(ctl, packet);
      assert txbuf[..txsize] == frame;
      var sent := SendFrame();
      ghost var tx := Transmission(old(link.writes), |frame|);
      assert link.wire == old(link.wire) + frame[..tx.delivered];
      if !sent {
        return Err(SendFailed);
      }
      commandPending := Some(id);
      assert link.events == old(link.events) && rxbuf[..] == old(rxbuf[..]) && response[..] == old(response[..]);
      ghost var rx := Listen(ctl.etx, link.events, rxbuf.Length);
      var outcome := Receive();
      assert Valid();
      assert outcome == rx.outcome && link.events == old(link.events)[rx.used..];
      if outcome == LinkFailed {
        return Err(ConnectionFailed);
      }
      if outcome == LinkClosed {
        return Err(ConnectionClosed);
      }
      if outcome == RxOverrun {
        return Err(ReceiveOverrun);
      }
      commandPending := None;
      assert Valid();
      if outcome == TimedOut {
        return Ok(None);
      }
      var status := Unescape();
      assert Valid();
      if status == Rejected {
        return Ok(None);
      }
      if status == Overrun {
        return Err(ResponseOverrun);
      }
      var ok := response[shape.idAt] == id && response[shape.etxAt] == ctl.etx && lrcOk(response[..]);
      return if ok then Ok(Some(response[..])) else Ok(None);
    }
  }
}
