/**
 * The byte stream under the PTCR session: the serial line or TCP socket as
 * the operating system presents it to ::write, select and ::read. The
 * results these calls return are not under the program's control, so the
 * link replays them from two scripts and logs the bytes the device accepted.
 */
module PtcrLink {
  import opened PtcrFraming

  type Positive = n: nat | 0 < n witness 1

  /**
   * What one ::write call reports: failure (a negative result), or that the
   * kernel took up to `room` bytes. A blocking write of k > 0 bytes returns
   * -1 or a count between 1 and k.
   */
  datatype WriteOutcome = WriteFailed | Accepted(room: Positive)

  /**
   * What one iteration of the receive loop meets: the one-second wait times
   * out, or the descriptor is ready and the one-byte ::read fails, reports
   * end of stream, or delivers a byte.
   */
  datatype RxEvent = Quiet | ReadFailed | Closed | Arrived(b: byte)

  function Min(a: nat, b: nat): nat { if a < b then a else b }

  /**
   * What a ::write of k bytes returns when `outs` are the coming outcomes:
   * -1 on failure, otherwise between 1 and k bytes taken.
   */
  function WriteReturn(outs: seq<WriteOutcome>, k: nat): (n: int)
    ensures 0 < k ==> n == -1 || 0 < n <= k
    ensures n < 0 ==> outs != []
  {
    if outs == [] then k
    else match outs[0]
      case WriteFailed => -1
      case Accepted(room) => Min(room, k)
  }

  /** The outcomes left after one ::write call. */
  function Remaining(outs: seq<WriteOutcome>): (rest: seq<WriteOutcome>)
    ensures |outs| - |rest| == if outs == [] then 0 else 1
  {
    if outs == [] then [] else outs[1..]
  }

  class Link {
    /** Outcomes of the coming ::write calls; once used up, every write takes all it is given. */
    var writes: seq<WriteOutcome>
    /** What the coming waits and reads meet; once used up, every wait times out. */
    var events: seq<RxEvent>
    /** The bytes the device has been sent so far, in order. */
    var wire: seq<byte>

    constructor (writes: seq<WriteOutcome>, events: seq<RxEvent>)
      ensures this.writes == writes && this.events == events && wire == []
    {
      this.writes, this.events, wire := writes, events, [];
    }

    /** ::write: returns -1, or how many leading bytes of `data` the device now has. */
    method Write(data: seq<byte>) returns (n: int)
      requires |data| > 0
      modifies this
      ensures n == WriteReturn(old(writes), |data|) && writes == Remaining(old(writes))
      ensures events == old(events)
      ensures wire == if n < 0 then old(wire) else old(wire) + data[..n]
    {
      if writes == [] {
        n := |data|;
      } else {
        n := match writes[0]
             case WriteFailed => -1
             case Accepted(room) => Min(room, |data|);
        writes := writes[1..];
      }
      if n >= 0 {
        wire := wire + data[..n];
      }
    }

    /** select with the one-second timeout: true when a read will not block. */
    method Wait() returns (ready: bool)
      modifies this
      ensures writes == old(writes) && wire == old(wire)
      ensures ready == (old(events) != [] && !old(events)[0].Quiet?)
      ensures events == if old(events) != [] && old(events)[0].Quiet? then old(events)[1..] else old(events)
    {
      ready := events != [] && !events[0].Quiet?;
      if events != [] && events[0].Quiet? {
        events := events[1..];
      }
    }

    /** A one-byte ::read after a successful wait: -1 on failure, 0 at end of stream, else 1 and the byte. */
    method Read() returns (n: int, b: byte)
      requires events != [] && !events[0].Quiet?
      modifies this
      ensures writes == old(writes) && wire == old(wire)
      ensures events == old(events)[1..]
      ensures n == match old(events)[0]
                   case ReadFailed => -1
                   case Closed => 0
                   case _ => 1
      ensures old(events)[0].Arrived? ==> b == old(events)[0].b
    {
      match events[0] {
        case ReadFailed => n, b := -1, 0;
        case Closed => n, b := 0, 0;
        case Arrived(x) => n, b := 1, x;
      }
      events := events[1..];
    }
  }

  // ------------------------------------------------ transmitting a frame

  /** How a transmission of `pending` bytes ends, and how many write outcomes it used. */
  datatype Delivery = Delivery(ok: bool, delivered: nat, used: nat)

  /** A transmission that has already delivered `sent` bytes with `used` write outcomes. */
  function Resume(sent: nat, used: nat, d: Delivery): Delivery
  {
    Delivery(d.ok, sent + d.delivered, used + d.used)
  }

  /**
   * The write loop: keep writing what is left until all `pending` bytes are
   * taken or a write fails.
   */
  function Transmission(outs: seq<WriteOutcome>, pending: nat): (d: Delivery)
    ensures d.delivered <= pending && d.used <= |outs|
    decreases pending
  {
    if pending == 0 then Delivery(true, 0, 0)
    else
      var n := WriteReturn(outs, pending);
      if n < 0 then Delivery(false, 0, 1)
      else Resume(n, |outs| - |Remaining(outs)|, Transmission(Remaining(outs), pending - n))
  }

  /**
   * The transmission succeeds exactly when every byte was taken, and a
   * failed one stops at the outcome that failed.
   */
  lemma {:induction false} TransmissionOutcome(outs: seq<WriteOutcome>, pending: nat)
    ensures var d := Transmission(outs, pending);
            && (d.ok <==> d.delivered == pending)
            && (!d.ok ==> 0 < d.used && outs[d.used - 1] == WriteFailed)
    decreases pending
  {
    if pending > 0 {
      var n := WriteReturn(outs, pending);
      if n >= 0 {
        var rest := Remaining(outs);
        TransmissionOutcome(rest, pending - n);
        if outs != [] {
          var d := Transmission(rest, pending - n);
          if !d.ok {
            assert rest[d.used - 1] == outs[d.used];
          }
        }
      }
    }
  }

  /**
   * The write loop seen from part way through: `sent` bytes of `total` are
   * delivered, `used` outcomes are spent and `left` are still to come.
   */
  function Transmitting(left: seq<WriteOutcome>, total: nat, sent: nat, used: nat): Delivery
    requires sent <= total
    decreases total - sent
  {
    if sent == total then Delivery(true, sent, used)
    else
      var n := WriteReturn(left, total - sent);
      if n < 0 then Delivery(false, sent, used + 1)
      else Transmitting(Remaining(left), total, sent + n, used + (|left| - |Remaining(left)|))
  }

  /** Part way through, the loop finishes the transmission of what is left. */
  lemma {:induction false} TransmittingResumes(left: seq<WriteOutcome>, total: nat, sent: nat, used: nat)
    requires sent <= total
    ensures Transmitting(left, total, sent, used) == Resume(sent, used, Transmission(left, total - sent))
    decreases total - sent
  {
    if sent < total {
      var n := WriteReturn(left, total - sent);
      if n >= 0 {
        TransmittingResumes(Remaining(left), total, sent + n, used + (|left| - |Remaining(left)|));
      }
    }
  }

  // ------------------------------------------------ receiving a frame

  /** How the receive loop ends. */
  datatype RxOutcome = GotEtx | TimedOut | LinkFailed | LinkClosed | RxOverrun

  /** The outcome, the bytes stored in the receive buffer, and how many events were used. */
  datatype Reception = Reception(outcome: RxOutcome, bytes: seq<byte>, used: nat)

  /**
   * The receive loop over `room` free buffer bytes: wait, read one byte,
   * store it, stop after ETX. A failed or closed read ends the loop whatever
   * the room; a byte that arrives with no room left would be written past
   * the buffer: that is `RxOverrun`.
   */
  function Listen(etx: byte, evs: seq<RxEvent>, room: nat): (r: Reception)
    ensures r.used <= |evs| && |r.bytes| <= room
    decreases |evs|
  {
    if evs == [] then Reception(TimedOut, [], 0)
    else if evs[0].Quiet? then Reception(TimedOut, [], 1)
    else match evs[0]
      case ReadFailed => Reception(LinkFailed, [], 1)
      case Closed => Reception(LinkClosed, [], 1)
      case Arrived(b) =>
        if room == 0 then Reception(RxOverrun, [], 1)
        else if b == etx then Reception(GotEtx, [b], 1)
        else
          var r := Listen(etx, evs[1..], room - 1);
          Reception(r.outcome, [b] + r.bytes, 1 + r.used)
  }

  /**
   * The loop stores bytes up to and including the first ETX: the reception
   * ends in GotEtx exactly when its last stored byte is ETX, and no stored
   * byte before that is ETX.
   */
  lemma {:induction false} ListenStopsAtEtx(etx: byte, evs: seq<RxEvent>, room: nat)
    ensures var r := Listen(etx, evs, room);
            && (r.outcome == GotEtx <==> 0 < |r.bytes| && r.bytes[|r.bytes| - 1] == etx)
            && (forall j | 0 <= j < |r.bytes| - 1 :: r.bytes[j] != etx)
            && (r.outcome != GotEtx ==> etx !in r.bytes)
    decreases |evs|
  {
    if evs != [] && !evs[0].Quiet? && room != 0 && evs[0].Arrived? && evs[0].b != etx {
      ListenStopsAtEtx(etx, evs[1..], room - 1);
    }
  }

  /**
   * A failed or closed read is reported as such even when the buffer is
   * already full: the device fills all `bytes` of room without an ETX and
   * then the read fails or the stream ends.
   */
  lemma {:induction false} ListenFullThenFails(etx: byte, bytes: seq<byte>, evs: seq<RxEvent>)
    requires etx !in bytes && Delivers(evs, bytes) && |bytes| < |evs|
    requires evs[|bytes|] == ReadFailed || evs[|bytes|] == Closed
    ensures Listen(etx, evs, |bytes|)
            == Reception(if evs[|bytes|] == ReadFailed then LinkFailed else LinkClosed, bytes, |bytes| + 1)
  {
    if bytes != [] {
      assert evs[0] == Arrived(bytes[0]) && bytes[0] != etx;
      var rest := bytes[1..];
      forall j | 0 <= j < |rest| ensures evs[1..][j] == Arrived(rest[j]) {
        assert evs[1..][j] == evs[j + 1];
      }
      assert evs[1..][|rest|] == evs[|bytes|];
      ListenFullThenFails(etx, rest, evs[1..]);
      assert [bytes[0]] + rest == bytes;
    }
  }

  /** A reception that has already stored `got` with `used` events. */
  function Received(got: seq<byte>, used: nat, r: Reception): Reception
  {
    Reception(r.outcome, got + r.bytes, used + r.used)
  }

  /**
   * The receive loop seen from part way through: `got` is stored, `used`
   * events are spent, `evs` are still to come and `room` bytes are free.
   */
  function Listening(etx: byte, evs: seq<RxEvent>, room: nat, got: seq<byte>, used: nat): Reception
    decreases |evs|
  {
    if evs == [] then Reception(TimedOut, got, used)
    else if evs[0].Quiet? then Reception(TimedOut, got, used + 1)
    else match evs[0]
      case ReadFailed => Reception(LinkFailed, got, used + 1)
      case Closed => Reception(LinkClosed, got, used + 1)
      case Arrived(b) =>
        if room == 0 then Reception(RxOverrun, got, used + 1)
        else if b == etx then Reception(GotEtx, got + [b], used + 1)
        else Listening(etx, evs[1..], room - 1, got + [b], used + 1)
  }

  /** Part way through, the loop finishes the reception of what is to come. */
  lemma {:induction false} ListeningResumes(etx: byte, evs: seq<RxEvent>, room: nat, got: seq<byte>, used: nat)
    ensures Listening(etx, evs, room, got, used) == Received(got, used, Listen(etx, evs, room))
    decreases |evs|
  {
    if evs != [] && !evs[0].Quiet? && room != 0 && evs[0].Arrived? {
      var b := evs[0].b;
      if b != etx {
        ListeningResumes(etx, evs[1..], room - 1, got + [b], used + 1);
        var r := Listen(etx, evs[1..], room - 1);
        assert got + ([b] + r.bytes) == (got + [b]) + r.bytes;
      }
    }
  }

  /** The events begin with a device sending `bytes` back to back. */
  predicate Delivers(evs: seq<RxEvent>, bytes: seq<byte>)
  {
    |bytes| <= |evs| && forall j | 0 <= j < |bytes| :: evs[j] == Arrived(bytes[j])
  }

  /**
   * A device that sends a frame whose only ETX is its last byte, and which
   * fits the buffer, is received as exactly that frame, whatever follows.
   */
  lemma {:induction false} ListenFrame(etx: byte, frame: seq<byte>, evs: seq<RxEvent>, room: nat)
    requires 0 < |frame| <= room && frame[|frame| - 1] == etx
    requires forall j | 0 <= j < |frame| - 1 :: frame[j] != etx
    requires Delivers(evs, frame)
    ensures Listen(etx, evs, room) == Reception(GotEtx, frame, |frame|)
  {
    assert evs[0] == Arrived(frame[0]);
    if |frame| == 1 {
      assert [frame[0]] == frame;
    } else {
      assert frame[0] != etx;
      var rest := frame[1..];
      forall j | 0 <= j < |rest| ensures evs[1..][j] == Arrived(rest[j]) {
        assert evs[1..][j] == evs[j + 1];
      }
      forall j | 0 <= j < |rest| - 1 ensures rest[j] != etx {
        assert rest[j] == frame[j + 1];
      }
      ListenFrame(etx, rest, evs[1..], room - 1);
      assert Listen(etx, evs, room) == Reception(GotEtx, [frame[0]] + rest, 1 + |rest|);
      assert [frame[0]] + rest == frame;
    }
  }
}
