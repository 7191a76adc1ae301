/**
 * The receive loop of UDPPing/UDPPingServer.c. Each pass counts an
 * iteration, receives one datagram into the receive buffer, reads the
 * TGIFHeartbeat header it starts with, classifies the sequence number
 * against the last in-order one (out of order, in order, or a gap that adds
 * to the drop estimate) and answers according to the header's code byte:
 * 0 echoes the datagram with the server's time patched in, 1 sends a
 * 12-byte TGIFACK, anything else sends nothing.
 *
 * The counters are the program's 32-bit globals and wrap as they do in C.
 * Beside them the model keeps, as ghost state, the unbounded number of
 * iterations and the sequence numbers accounted so far, and proves that the
 * machine counters are the reduction modulo 2^32 of an exact tally.
 */
module PingServer {
  import opened ByteOrder
  import opened Messages

  const NOERROR: int := 0
  const ERROR: int := -1
  const EXIT_FAILURE: int := 1
  /** The default receive buffer size, when no size is given on the command line. */
  const MAXMSGSIZE: nat := 50000

  /** Byte offsets of the TGIFHeartbeat fields the server reads or patches. */
  const CODE_AT: nat := 1
  const SEQUENCE_AT: nat := 12
  const TS_SEC_AT: nat := 16
  const TS_NSEC_AT: nat := 20

  // ---------------------------------------------------------------------
  // Sequence-number bookkeeping
  // ---------------------------------------------------------------------

  /** lastSeqNumber, dropEstimate and outOfOrderArrivals, as the 32-bit globals hold them. */
  datatype Counters = Counters(lastSeqNumber: uint32, dropEstimate: uint32, outOfOrderArrivals: uint32)

  const START: Counters := Counters(0, 0, 0)

  datatype Arrival = OutOfOrder | InOrder | Gap

  /**
   * Which branch a sequence number takes. In C, lastSeqNumber + 1 wraps to 0
   * only when lastSeqNumber is 0xFFFFFFFF, and then every number takes the
   * first branch, so the unbounded sum gives the same branch.
   */
  function Classify(lastSeq: uint32, seqNum: uint32): Arrival
  {
    if seqNum <= lastSeq then OutOfOrder
    else if seqNum == lastSeq + 1 then InOrder
    else Gap
  }

  /** a + b in 32-bit unsigned arithmetic. */
  function Add32(a: uint32, b: nat): (r: uint32)
    ensures a + b < TWO_32 ==> r == a + b
    ensures a + b >= TWO_32 && b < TWO_32 ==> r == a + b - TWO_32
  {
    (a + b) % TWO_32
  }

  /** One classified arrival. The last in-order number moves only on the very next number. */
  function Account(c: Counters, seqNum: uint32): (r: Counters)
    ensures r.lastSeqNumber != c.lastSeqNumber <==> seqNum == c.lastSeqNumber + 1
    ensures r.lastSeqNumber == c.lastSeqNumber || r.lastSeqNumber == c.lastSeqNumber + 1
  {
    match Classify(c.lastSeqNumber, seqNum)
    case OutOfOrder => c.(outOfOrderArrivals := Add32(c.outOfOrderArrivals, 1))
    case InOrder => c.(lastSeqNumber := seqNum)
    case Gap => c.(dropEstimate := Add32(c.dropEstimate, seqNum - c.lastSeqNumber - 1))
  }

  /** The counters after the given arrivals, in order. */
  function AccountAll(c: Counters, arrivals: seq<uint32>): Counters
    decreases |arrivals|
  {
    if arrivals == [] then c
    else Account(AccountAll(c, arrivals[..|arrivals| - 1]), arrivals[|arrivals| - 1])
  }

  lemma AccountAllSnoc(c: Counters, arrivals: seq<uint32>, seqNum: uint32)
    ensures AccountAll(c, arrivals + [seqNum]) == Account(AccountAll(c, arrivals), seqNum)
  {
    assert (arrivals + [seqNum])[..|arrivals|] == arrivals;
  }

  /** The same bookkeeping with unbounded counts and one count per kind of arrival. */
  datatype Tally = Tally(lastSeq: uint32, drops: nat, outOfOrder: nat, inOrder: nat, gaps: nat)

  /** One arrival in the exact tally: every count only grows, and exactly one kind is counted. */
  function Record(t: Tally, seqNum: uint32): (r: Tally)
    ensures r.drops >= t.drops && r.outOfOrder >= t.outOfOrder && r.lastSeq >= t.lastSeq
    ensures r.outOfOrder + r.inOrder + r.gaps == t.outOfOrder + t.inOrder + t.gaps + 1
    ensures r.lastSeq - t.lastSeq == r.inOrder - t.inOrder
    ensures r.drops - t.drops >= r.gaps - t.gaps
  {
    match Classify(t.lastSeq, seqNum)
    case OutOfOrder => t.(outOfOrder := t.outOfOrder + 1)
    case InOrder => t.(lastSeq := seqNum, inOrder := t.inOrder + 1)
    case Gap => t.(drops := t.drops + (seqNum - t.lastSeq - 1), gaps := t.gaps + 1)
  }

  function Tallied(arrivals: seq<uint32>): Tally
    decreases |arrivals|
  {
    if arrivals == [] then Tally(0, 0, 0, 0, 0)
    else Record(Tallied(arrivals[..|arrivals| - 1]), arrivals[|arrivals| - 1])
  }

  /** The counters the C globals hold: the exact tally reduced modulo 2^32. */
  function Wrapped(t: Tally): Counters
  {
    Counters(t.lastSeq, t.drops % TWO_32, t.outOfOrder % TWO_32)
  }

  /** The 32-bit counters are always the exact counts modulo 2^32. */
  lemma {:induction false} CountersAreTallyMod32(arrivals: seq<uint32>)
    ensures AccountAll(START, arrivals) == Wrapped(Tallied(arrivals))
  {
    if arrivals != [] {
      var front := arrivals[..|arrivals| - 1];
      var seqNum := arrivals[|arrivals| - 1];
      CountersAreTallyMod32(front);
      var t := Tallied(front);
      match Classify(t.lastSeq, seqNum)
      case OutOfOrder => ModAdd32(t.outOfOrder, 1);
      case InOrder =>
      case Gap => ModAdd32(t.drops, seqNum - t.lastSeq - 1);
    }
  }

  /**
   * Every arrival is counted exactly once, lastSeqNumber is the number of
   * in-order arrivals, and each gap adds at least one to the drop estimate.
   */
  lemma {:induction false} TallyPartition(arrivals: seq<uint32>)
    ensures var t := Tallied(arrivals);
      t.outOfOrder + t.inOrder + t.gaps == |arrivals| && t.lastSeq == t.inOrder && t.gaps <= t.drops
  {
    if arrivals != [] {
      TallyPartition(arrivals[..|arrivals| - 1]);
    }
  }

  /** Arrivals 1, 2, ..., n in order: no loss and nothing out of order. */
  function Ascending(n: nat): (r: seq<uint32>)
    requires n < TWO_32
    ensures |r| == n && forall i :: 0 <= i < n ==> r[i] == i + 1
  {
    seq(n, i requires 0 <= i < n => i + 1)
  }

  lemma {:induction false} InOrderStreamHasNoDrops(n: nat)
    requires n < TWO_32
    ensures Tallied(Ascending(n)) == Tally(n, 0, 0, n, 0)
  {
    if n > 0 {
      assert Ascending(n)[..n - 1] == Ascending(n - 1);
      InOrderStreamHasNoDrops(n - 1);
    }
  }

  /**
   * A gap leaves lastSeqNumber where it was, so the number after the gap's
   * own number is a gap too: one lost datagram is counted again for every
   * later arrival until the lost number itself turns up.
   */
  lemma GapIsSticky(c: Counters, seqNum: uint32)
    requires Classify(c.lastSeqNumber, seqNum) == Gap && seqNum + 1 < TWO_32
    ensures Classify(Account(c, seqNum).lastSeqNumber, seqNum + 1) == Gap
  {
  }

  /** Arrivals 1, 2, 3, 5, 6 leave the last in-order number at 3 and a drop estimate of 3. */
  lemma LossOfFourCountsThree()
    ensures AccountAll(START, [1, 2, 3, 5, 6]) == Counters(3, 3, 0)
  {
    var s: seq<uint32> := [1, 2, 3, 5, 6];
    assert s[..4][..3] == [1, 2, 3];
    assert [1, 2, 3][..2] == [1, 2];
    assert [1, 2][..1] == [1];
    assert AccountAll(START, [1, 2, 3]) == Counters(3, 0, 0);
  }

  // ---------------------------------------------------------------------
  // exitProcessing
  // ---------------------------------------------------------------------

  /**
   * avgLossRate = dropEstimate / numberIterations, an unsigned integer
   * division: the truncated quotient, and no value when numberIterations is
   * 0 (the division traps).
   */
  function AvgLossRate(dropEstimate: uint32, numberIterations: uint32): (r: Option<uint32>)
    ensures r.None? <==> numberIterations == 0
    ensures r.Some? ==> r.value * numberIterations <= dropEstimate < (r.value + 1) * numberIterations
  {
    if numberIterations == 0 then None else Some(dropEstimate / numberIterations)
  }

  // ---------------------------------------------------------------------
  // Datagrams and replies
  // ---------------------------------------------------------------------

  /** What RxMsg hands back: a failure (reported as EXIT_FAILURE) or the bytes of one datagram. */
  datatype Received = RecvFailed | Datagram(bytes: seq<uint8>)

  datatype Reply = NoReply | Send(bytes: seq<uint8>)

  /** How a pass of the loop ends: it goes on, the process exits in failure, or runFlag stopped it. */
  datatype Outcome = Continue(reply: Reply) | Exit | Stop

  /** One server input: runFlag at the top of the pass, the receive, the clock and the send result. */
  datatype Input = Input(runFlag: bool, rx: Received, nowSec: nat, nowNsec: nat, sendOk: bool)

  /** The buffer after recvfrom has written a datagram at its start. */
  function Overwrite(buf: seq<uint8>, data: seq<uint8>): (r: seq<uint8>)
    requires |data| <= |buf|
    ensures |r| == |buf| && r[..|data|] == data
    ensures forall i :: |data| <= i < |buf| ==> r[i] == buf[i]
  {
    data + buf[|data|..]
  }

  /** The buffer with the 32-bit field at offset `at` set to x in network order. */
  function PatchNet32(buf: seq<uint8>, at: nat, x: uint32): (r: seq<uint8>)
    requires at + 4 <= |buf|
    ensures |r| == |buf| && r[at..at + 4] == BeBytes(x, 4)
    ensures forall i :: 0 <= i < |buf| && !(at <= i < at + 4) ==> r[i] == buf[i]
  {
    buf[..at] + BeBytes(x, 4) + buf[at + 4..]
  }

  /** The 12 bytes of a TGIFACK with its three fields in network order. */
  function AckBytes(seqNum: uint32, sec: uint32, nsec: uint32): (r: seq<uint8>)
    ensures |r| == SIZEOF_TGIFACK
  {
    BeBytes(seqNum, 4) + BeBytes(sec, 4) + BeBytes(nsec, 4)
  }

  /** The client reads the acknowledged number and the server's time back out of an ACK. */
  lemma {:induction false} AckDecodes(host: Endian, seqNum: uint32, sec: uint32, nsec: uint32)
    ensures var r := AckBytes(seqNum, sec, nsec);
      ReadNet32(host, r[0..4]) == seqNum && ReadNet32(host, r[4..8]) == sec && ReadNet32(host, r[8..12]) == nsec
  {
    var r := AckBytes(seqNum, sec, nsec);
    assert r[0..4] == BeBytes(seqNum, 4);
    assert r[4..8] == BeBytes(sec, 4);
    assert r[8..12] == BeBytes(nsec, 4);
    Pow256Widths();
    BeValueOfBeBytes(seqNum, 4);
    BeValueOfBeBytes(sec, 4);
    BeValueOfBeBytes(nsec, 4);
  }

  /** The echoed datagram: the received bytes with the two timestamp fields replaced. */
  function EchoBuffer(buf: seq<uint8>, sec: uint32, nsec: uint32): (r: seq<uint8>)
    requires SIZEOF_HEARTBEAT <= |buf|
    ensures |r| == |buf|
  {
    PatchNet32(PatchNet32(buf, TS_NSEC_AT, nsec), TS_SEC_AT, sec)
  }

  /**
   * An echo returns every received byte outside the timestamp fields
   * unchanged, sequence number included, and carries the server's time in
   * them when the datagram is long enough to hold them.
   */
  lemma {:induction false} EchoKeepsAllButTime(host: Endian, buf: seq<uint8>, sec: uint32, nsec: uint32)
    requires SIZEOF_HEARTBEAT <= |buf|
    ensures var r := EchoBuffer(buf, sec, nsec);
      (forall i :: 0 <= i < |buf| && !(TS_SEC_AT <= i < TS_NSEC_AT + 4) ==> r[i] == buf[i])
      && ReadNet32(host, r[SEQUENCE_AT..SEQUENCE_AT + 4]) == ReadNet32(host, buf[SEQUENCE_AT..SEQUENCE_AT + 4])
      && ReadNet32(host, r[TS_SEC_AT..TS_SEC_AT + 4]) == sec
      && ReadNet32(host, r[TS_NSEC_AT..TS_NSEC_AT + 4]) == nsec
  {
    var p := PatchNet32(buf, TS_NSEC_AT, nsec);
    var r := PatchNet32(p, TS_SEC_AT, sec);
    assert r[SEQUENCE_AT..SEQUENCE_AT + 4] == buf[SEQUENCE_AT..SEQUENCE_AT + 4];
    assert r[TS_NSEC_AT..TS_NSEC_AT + 4] == p[TS_NSEC_AT..TS_NSEC_AT + 4];
    Pow256Widths();
    BeValueOfBeBytes(sec, 4);
    BeValueOfBeBytes(nsec, 4);
  }

  // ---------------------------------------------------------------------
  // The server
  // ---------------------------------------------------------------------

  class Server {
    /** The byte order of the machine the server runs on. */
    const host: Endian
    /** RxBufPtr: maxMsgSize bytes. */
    const rxBuf: array<uint8>

    var numberIterations: uint32
    var numberMessages: uint32
    var rxSeqNumber: uint32
    var lastSeqNumber: uint32
    var dropEstimate: uint32
    var outOfOrderArrivals: uint32
    /** A double in C; exact here. */
    var totalBytesRxed: nat
    var mode: uint8
    var rc: int

    /** Passes of the loop so far, without wrap-around. */
    ghost var iterations: nat
    /** The sequence numbers of the datagrams accounted so far, in order. */
    ghost var arrivals: seq<uint32>

    ghost predicate Valid()
      reads this
    {
      SIZEOF_HEARTBEAT <= rxBuf.Length
      && numberIterations == iterations % TWO_32
      && numberMessages == |arrivals| % TWO_32
      && |arrivals| <= iterations
      && Counters(lastSeqNumber, dropEstimate, outOfOrderArrivals) == AccountAll(START, arrivals)
      && (rc == NOERROR || rc == EXIT_FAILURE)
    }

    /** The globals' initial values and a receive buffer of maxMsgSize bytes. */
    constructor (host: Endian, maxMsgSize: nat)
      requires SIZEOF_HEARTBEAT <= maxMsgSize
      ensures Valid() && fresh(rxBuf) && rxBuf.Length == maxMsgSize && this.host == host
      ensures iterations == 0 && arrivals == [] && totalBytesRxed == 0
    {
      this.host := host;
      rxBuf := new uint8[maxMsgSize](_ => 0);
      numberIterations, numberMessages, rxSeqNumber := 0, 0, 0;
      lastSeqNumber, dropEstimate, outOfOrderArrivals := 0, 0, 0;
      totalBytesRxed, mode, rc := 0, 0, NOERROR;
      iterations, arrivals := 0, [];
    }

    /** recvfrom: the datagram's bytes land at the start of the buffer. */
    method Receive(data: seq<uint8>)
      requires |data| <= rxBuf.Length
      modifies rxBuf
      ensures rxBuf[..] == Overwrite(old(rxBuf[..]), data)
    {
      forall i | 0 <= i < |data| {
        rxBuf[i] := data[i];
      }
      assert rxBuf[..] == Overwrite(old(rxBuf[..]), data);
    }

    /** rxHeader->field = htonl(x) for the 32-bit field at offset `at`. */
    method Patch(at: nat, x: uint32)
      requires at + 4 <= rxBuf.Length
      modifies rxBuf
      ensures rxBuf[..] == PatchNet32(old(rxBuf[..]), at, x)
    {
      var bytes := WriteNet32(host, x);
      forall i | 0 <= i < 4 {
        rxBuf[at + i] := bytes[i];
      }
      assert rxBuf[..] == PatchNet32(old(rxBuf[..]), at, x);
    }

    /** The classification of one sequence number and the counter it moves. */
    method AccountArrival(seqNum: uint32)
      requires Valid()
      requires |arrivals| < iterations
      modifies this
      ensures Valid() && arrivals == old(arrivals) + [seqNum] && rxSeqNumber == seqNum
      ensures iterations == old(iterations) && totalBytesRxed == old(totalBytesRxed)
      ensures mode == old(mode) && rc == old(rc)
    {
      AccountAllSnoc(START, arrivals, seqNum);
      ModAdd32(|arrivals|, 1);
      rxSeqNumber := seqNum;
      if rxSeqNumber <= lastSeqNumber {
        outOfOrderArrivals := Add32(outOfOrderArrivals, 1);
      } else if rxSeqNumber == lastSeqNumber + 1 {
        lastSeqNumber := rxSeqNumber;
      } else {
        dropEstimate := Add32(dropEstimate, rxSeqNumber - lastSeqNumber - 1);
      }
      numberMessages := Add32(numberMessages, 1);
      arrivals := arrivals + [seqNum];
    }

    /**
     * One pass of the loop. A failed receive, and a one-byte datagram, which
     * RxMsg's result cannot tell from a failure, end the process. A datagram
     * in the pass that wraps numberIterations to 0 is not accounted.
     */
    method Step(input: Input) returns (out: Outcome)
      requires Valid()
      requires input.rx.Datagram? ==> |input.rx.bytes| <= rxBuf.Length
      requires input.nowNsec < 1_000_000_000
      modifies this, rxBuf
      ensures Valid()
      ensures !input.runFlag ==> out == Stop && iterations == old(iterations) && arrivals == old(arrivals)
      ensures input.runFlag ==> iterations == old(iterations) + 1
      ensures input.runFlag && input.rx.RecvFailed? ==> out == Exit && arrivals == old(arrivals)
      ensures input.runFlag && input.rx.Datagram? ==> StepTaken(input, old(rxBuf[..]), old(arrivals), old(totalBytesRxed), out)
    {
      if !input.runFlag {
        return Stop;
      }
      numberIterations := Add32(numberIterations, 1);
      iterations := iterations + 1;
      if input.rx.RecvFailed? {
        rc := EXIT_FAILURE;
        return Exit;
      }
      var data := input.rx.bytes;
      Receive(data);
      if |data| == EXIT_FAILURE {
        rc := EXIT_FAILURE;
        return Exit;
      }
      if numberIterations == 0 {
        return Continue(NoReply);
      }
      out := Accept(|data|, input.nowSec % TWO_32, input.nowNsec, input.sendOk);
    }

    /** What a pass with a received datagram leaves behind, from the buffer, arrivals and byte total before it. */
    ghost predicate StepTaken(input: Input, buf: seq<uint8>, before: seq<uint32>, bytesBefore: nat, out: Outcome)
      requires input.rx.Datagram? && |input.rx.bytes| <= |buf| && SIZEOF_HEARTBEAT <= |buf|
      requires input.nowNsec < 1_000_000_000
      reads this, rxBuf
    {
      var data := input.rx.bytes;
      var got := Overwrite(buf, data);
      if |data| == EXIT_FAILURE then
        out == Exit && arrivals == before && rxBuf[..] == got
      else if numberIterations == 0 then
        out == Continue(NoReply) && arrivals == before && rxBuf[..] == got
      else
        Accepted(got, |data|, input.nowSec % TWO_32, input.nowNsec, input.sendOk, before, bytesBefore, out)
    }

    /**
     * A datagram of n bytes, now at the start of `got`, is accounted: its
     * code byte becomes the mode, its sequence number is classified, and the
     * reply follows the mode. The send result only sets rc: EXIT_FAILURE is
     * not ERROR, so a failed send does not end the loop.
     */
    ghost predicate Accepted(got: seq<uint8>, n: nat, sec: uint32, nsec: uint32, sendOk: bool,
                             before: seq<uint32>, bytesBefore: nat, out: Outcome)
      requires n <= |got| && SIZEOF_HEARTBEAT <= |got|
      reads this, rxBuf
    {
      var seqNum := BeValue(got[SEQUENCE_AT..SEQUENCE_AT + 4]);
      arrivals == before + [seqNum] && rxSeqNumber == seqNum
      && totalBytesRxed == bytesBefore + n
      && mode == got[CODE_AT]
      && out.Continue?
      && (mode == 0 ==>
            rxBuf[..] == EchoBuffer(got, sec, nsec)
            && out.reply == Send(rxBuf[..n])
            && rc == (if sendOk then NOERROR else EXIT_FAILURE))
      && (mode == 1 ==>
            rxBuf[..] == got
            && out.reply == Send(AckBytes(seqNum, sec, nsec))
            && rc == (if sendOk then NOERROR else EXIT_FAILURE))
      && (mode != 0 && mode != 1 ==> rxBuf[..] == got && out.reply == NoReply && rc == NOERROR)
    }

    /** The body of the `if (numberIterations > 0)` block, for a datagram of n bytes. */
    method Accept(n: nat, sec: uint32, nsec: uint32, sendOk: bool) returns (out: Outcome)
      requires Valid() && |arrivals| < iterations && n <= rxBuf.Length
      modifies this, rxBuf
      ensures Valid() && iterations == old(iterations)
      ensures Accepted(old(rxBuf[..]), n, sec, nsec, sendOk, old(arrivals), old(totalBytesRxed), out)
    {
      totalBytesRxed := totalBytesRxed + n;
      rc := NOERROR;
      mode := rxBuf[CODE_AT];
      var seqNum := ReadNet32(host, rxBuf[SEQUENCE_AT..SEQUENCE_AT + 4]);
      AccountArrival(seqNum);
      if mode == 0 {
        Patch(TS_NSEC_AT, nsec);
        Patch(TS_SEC_AT, sec);
        out := Continue(Send(rxBuf[..n]));
        rc := if sendOk then NOERROR else EXIT_FAILURE;
      } else if mode == 1 {
        var bytes := WriteNet32(host, rxSeqNumber) + WriteNet32(host, sec) + WriteNet32(host, nsec);
        out := Continue(Send(bytes));
        rc := if sendOk then NOERROR else EXIT_FAILURE;
      } else {
        out := Continue(NoReply);
      }
    }

    /**
     * The server's for (;;) loop over a finite run of inputs: it stops at
     * the first pass that does not continue or when the inputs run out.
     */
    method Serve(inputs: seq<Input>) returns (out: Outcome, served: nat)
      requires Valid()
      requires forall i :: 0 <= i < |inputs| ==> inputs[i].nowNsec < 1_000_000_000
      requires forall i :: 0 <= i < |inputs| && inputs[i].rx.Datagram? ==> |inputs[i].rx.bytes| <= rxBuf.Length
      modifies this, rxBuf
      ensures Valid()
      ensures served <= |inputs| && (served == |inputs| || !out.Continue?)
      ensures old(arrivals) <= arrivals && |arrivals| <= |old(arrivals)| + served
      ensures Counters(lastSeqNumber, dropEstimate, outOfOrderArrivals) == Wrapped(Tallied(arrivals))
    {
      out := Continue(NoReply);
      served := 0;
      while served < |inputs| && out.Continue?
        invariant Valid() && served <= |inputs|
        invariant old(arrivals) <= arrivals && |arrivals| <= |old(arrivals)| + served
      {
        out := Step(inputs[served]);
        served := served + 1;
      }
      CountersAreTallyMod32(arrivals);
    }
  }
}
