/**
 * The probe loop of UDPPing/UDPPingClient.c. Each pass sends the next
 * sequence number in a TGIFHeartbeat header; in modes 0 and 1 it then waits
 * for the reply under an alarm and validates it: mode 0 expects the whole
 * datagram echoed back, mode 1 a 12-byte TGIFACK, and both expect the
 * sequence number just sent. Mode 2 sends a paced stream and never
 * receives. At the end of a pass the absolute pacing target moves on by
 * the iteration delay.
 *
 * Sockets, the alarm and the clock are inputs: a pass is given whether
 * runFlag is still set, whether the send succeeded and how the receive
 * ended. Times are integer nanoseconds; delays are integer microseconds.
 */
module PingClient {
  import opened ByteOrder
  import opened Messages

  const EXIT_SUCCESS: int := 0
  const EXIT_FAILURE: int := 1

  /**
   * How RxMsg returned: interrupted by the alarm (EINTR), another failure,
   * or a datagram of len bytes. errnoEintr is the errno a datagram leaves
   * behind from an earlier call; the loop reads it only when len is 1,
   * because RxMsg reports a failure as EXIT_FAILURE, which is 1.
   */
  datatype RxOutcome = Timeout | OtherError | Reply(len: nat, seqNum: uint32, errnoEintr: bool)

  /** bytesRxed: the byte count of a datagram, EXIT_FAILURE for a failed receive. */
  function BytesRxed(rx: RxOutcome): (r: int)
    ensures rx.Reply? ==> r == rx.len
    ensures !rx.Reply? ==> r == EXIT_FAILURE
  {
    if rx.Reply? then rx.len else EXIT_FAILURE
  }

  /** errno == EINTR after the receive: set by the alarm, or left from before a datagram. */
  function ErrnoIsEintr(rx: RxOutcome): (r: bool)
    ensures r <==> rx.Timeout? || (rx.Reply? && rx.errnoEintr)
  {
    match rx
    case Timeout => true
    case OtherError => false
    case Reply(_, _, errnoEintr) => errnoEintr
  }

  /** The inputs of one pass of the while (runFlag) loop. */
  datatype Probe = Probe(runFlag: bool, sendOk: bool, rx: RxOutcome)

  /** What a pass handed to sendMsg: nothing, or a length and the header's sequence-number field. */
  datatype Sent = NotSent | SentProbe(length: nat, seqField: seq<uint8>)

  /** a + b in 32-bit unsigned arithmetic. */
  function Add32(a: uint32, b: nat): uint32
  {
    (a + b) % TWO_32
  }

  /** Adding to a wrapped count wraps the sum. */
  lemma Add32OfWrapped(n: nat, b: nat)
    ensures Add32(n % TWO_32, b) == (n + b) % TWO_32
  {
    ModAdd32(n, b);
  }

  /** a - 1 in 32-bit unsigned arithmetic (seqNumber - 1 wraps to 0xFFFFFFFF at 0). */
  function Dec32(a: uint32): (r: uint32)
    ensures (r + 1) % TWO_32 == a
  {
    if a == 0 then TWO_32 - 1 else a - 1
  }

  /** k times d, as a running sum: what k additions of d leave in an accumulator. */
  function Repeated(k: nat, d: nat): (r: nat)
  {
    if k == 0 then 0 else Repeated(k - 1, d) + d
  }

  lemma {:induction false} RepeatedIsProduct(k: nat, d: nat)
    ensures Repeated(k, d) == k * d
  {
    if k > 0 {
      RepeatedIsProduct(k - 1, d);
    }
  }

  // ---------------------------------------------------------------------
  // Delay selection and the final report
  // ---------------------------------------------------------------------

  /**
   * The iteration delay in microseconds: iterationDelay as given, except
   * that 0 means no pacing, or 0.2 seconds in mode 2.
   */
  function DelayMicros(iterationDelay: uint32, mode: int): (r: nat)
    ensures r == 0 <==> iterationDelay == 0 && mode != 2
    ensures iterationDelay > 0 ==> r == iterationDelay
    ensures iterationDelay == 0 && mode == 2 ==> r == 200_000
  {
    if iterationDelay == 0 then (if mode == 2 then 200_000 else 0) else iterationDelay
  }

  /** avgRTT: the sample mean, or 0 when there are no samples. */
  function AvgRTT(rttSum: real, numberRTTSamples: int): (r: real)
    ensures numberRTTSamples <= 0 ==> r == 0.0
    ensures numberRTTSamples > 0 ==> r * numberRTTSamples as real == rttSum
  {
    if numberRTTSamples > 0 then
      QuotientTimesDivisor(rttSum, numberRTTSamples as real);
      rttSum / numberRTTSamples as real
    else 0.0
  }

  /** avgLossRate: alarm timeouts per probe sent, or 0 when nothing was sent. */
  function AvgLossRate(numberAlarmTimeouts: uint32, numberSent: uint32): (r: real)
    ensures numberSent == 0 ==> r == 0.0
    ensures numberSent > 0 ==> r * numberSent as real == numberAlarmTimeouts as real
    ensures numberAlarmTimeouts <= numberSent ==> 0.0 <= r <= 1.0
  {
    if numberSent > 0 then
      QuotientTimesDivisor(numberAlarmTimeouts as real, numberSent as real);
      numberAlarmTimeouts as real / numberSent as real
    else 0.0
  }

  /** Counts below 2^32 are their own wrapped values. */
  lemma BelowWrapIsExact(a: nat, b: nat)
    requires a <= b < TWO_32
    ensures a % TWO_32 == a <= b == b % TWO_32
  {
  }

  /** A quotient times its positive divisor gives back the dividend; a part over its whole is a fraction. */
  lemma QuotientTimesDivisor(a: real, b: real)
    requires b > 0.0
    ensures (a / b) * b == a
    ensures 0.0 <= a <= b ==> 0.0 <= a / b <= 1.0
  {
  }

  // ---------------------------------------------------------------------
  // The send length
  // ---------------------------------------------------------------------

  /** msgSize when the header is filled in: its initial -1, as the arguments are parsed later. */
  const MSG_SIZE_AT_HEADER_INIT: int := -1

  /** header->dataSize = htons(msgSize + hdrSize): the int sum truncated to 16 bits, in network order. */
  function DataSizeField(host: Endian, msgSize: int): (r: uint16)
    ensures Ntohs(host, r) == (msgSize + SIZEOF_HEARTBEAT) % 0x1_0000
  {
    Htons(host, (msgSize + SIZEOF_HEARTBEAT) % 0x1_0000)
  }

  /**
   * The length every pass hands to sendMsg: the dataSize field used as a
   * plain integer. It was set before msgSize was known, so it does not
   * depend on the message size.
   */
  function SendLengthAsWritten(host: Endian): (r: uint16)
    ensures Ntohs(host, r) == SIZEOF_HEARTBEAT - 1
  {
    DataSizeField(host, MSG_SIZE_AT_HEADER_INIT)
  }

  /**
   * The send length is 15104 bytes on a little-endian host, past the end of
   * a send buffer of msgSize bytes unless msgSize is at least that large,
   * and 59 bytes on a big-endian one, shorter than the datagram mode 0
   * expects back unless msgSize is 59.
   */
  lemma SendLengthAsWrittenIgnoresMsgSize(msgSize: nat)
    ensures SendLengthAsWritten(LittleEndian) == 15104
    ensures SendLengthAsWritten(BigEndian) == 59
    ensures msgSize < 15104 ==> SendLengthAsWritten(LittleEndian) > msgSize
    ensures msgSize != 59 ==> SendLengthAsWritten(BigEndian) != msgSize
  {
    Pow256Widths();
    ByteSwapTwo(59, 0);
  }

  // ---------------------------------------------------------------------
  // The client
  // ---------------------------------------------------------------------

  class Client {
    /** The byte order of the machine the client runs on. */
    const host: Endian
    /** 0: echo, 1: ACK only, 2: no replies; other values as the code treats them. */
    const mode: int
    const msgSize: nat
    /** delay, in nanoseconds. */
    const delayNs: nat
    /** TSstartD, in nanoseconds. */
    const tsStart: int

    var numberSent: uint32
    var seqNumber: uint32
    var numberRxed: uint32
    var numberAlarmTimeouts: uint32
    /** int in C; overflow is not modelled. */
    var numberPacketLoss: nat
    var numberRTTSamples: nat
    var numberOWDSamples: nat
    var totalBytesSent: uint32
    /** nextWakeUpTimeD, in nanoseconds. */
    var nextWakeUp: int

    /**
     * Probes sent, sends that succeeded, replies accepted, losses counted,
     * alarm timeouts and paced passes, without wrap-around.
     */
    ghost var sent: nat
    ghost var delivered: nat
    ghost var rxed: nat
    ghost var lost: nat
    ghost var timeouts: nat
    ghost var paced: nat
    ghost var bytesSent: nat

    ghost predicate Valid()
      reads this
    {
      numberSent == sent % TWO_32 && seqNumber == (sent + 1) % TWO_32
      && numberRxed == rxed % TWO_32 && numberRTTSamples == rxed && numberOWDSamples == rxed
      && numberPacketLoss == lost && numberAlarmTimeouts == timeouts % TWO_32 && timeouts <= lost
      && delivered <= sent && rxed + lost <= delivered && paced <= delivered
      && bytesSent == Repeated(delivered, msgSize) && totalBytesSent == bytesSent % TWO_32
      && nextWakeUp == tsStart + Repeated(paced, delayNs)
    }

    /** The state before the loop: nothing sent, next sequence number 1, pacing target at the start time. */
    constructor (host: Endian, mode: int, msgSize: nat, iterationDelay: uint32, tsStart: int)
      ensures Valid() && sent == 0 && paced == 0
      ensures this.mode == mode && this.msgSize == msgSize && this.host == host
      ensures delayNs == DelayMicros(iterationDelay, mode) * 1000 && nextWakeUp == tsStart
    {
      this.host, this.mode, this.msgSize, this.tsStart := host, mode, msgSize, tsStart;
      delayNs := DelayMicros(iterationDelay, mode) * 1000;
      numberSent, seqNumber, numberRxed, numberAlarmTimeouts := 0, 1, 0, 0;
      numberPacketLoss, numberRTTSamples, numberOWDSamples, totalBytesSent := 0, 0, 0, 0;
      nextWakeUp := tsStart;
      sent, delivered, rxed, lost, timeouts, paced, bytesSent := 0, 0, 0, 0, 0, 0, 0;
    }

    /**
     * How the receive of a pass whose probe carried `probe` ended, from the
     * accepted, lost and timed-out counts before it: whether the loop goes
     * on, and rc. A byte count equal to EXIT_FAILURE takes the error path,
     * where errno decides; the alarm's own count grows only when it fired.
     */
    ghost predicate Handled(rx: RxOutcome, probe: uint32, rxedBefore: nat, lostBefore: nat, timeoutsBefore: nat,
                            cont: bool, rc: int)
      reads this
    {
      if mode >= 2 then
        cont && rxed == rxedBefore && lost == lostBefore && timeouts == timeoutsBefore && rc == EXIT_SUCCESS
      else if BytesRxed(rx) == EXIT_FAILURE then
        rxed == rxedBefore
        && timeouts == timeoutsBefore + (if rx.Timeout? then 1 else 0)
        && (cont <==> ErrnoIsEintr(rx))
        && (cont ==> lost == lostBefore + 1 && rc == EXIT_SUCCESS)
        && (!cont ==> lost == lostBefore && rc == EXIT_FAILURE)
      else
        lost == lostBefore && timeouts == timeoutsBefore
        && (mode == 0 ==>
              (cont <==> rx.len == msgSize && rx.seqNum == probe)
              && (cont ==> rxed == rxedBefore + 1 && rc == EXIT_SUCCESS)
              && (!cont ==> rxed == rxedBefore && rc == EXIT_FAILURE))
        && (mode == 1 ==>
              (cont <==> rx.len == SIZEOF_TGIFACK)
              && (cont && rx.seqNum == probe ==> rxed == rxedBefore + 1 && rc == EXIT_SUCCESS)
              && (!(cont && rx.seqNum == probe) ==> rxed == rxedBefore && rc == EXIT_FAILURE))
        && (mode < 0 ==> cont && rxed == rxedBefore && rc == EXIT_SUCCESS)
    }

    /**
     * One pass of the while (runFlag) loop; cont is false when the loop
     * breaks. rc is main's return code, which a pass that stops at the top
     * leaves as the previous pass set it.
     */
    method Iteration(p: Probe, rcBefore: int) returns (cont: bool, rc: int, out: Sent)
      requires Valid()
      modifies this
      ensures Valid()
      ensures !p.runFlag ==> !cont && rc == rcBefore && out == NotSent
                             && sent == old(sent) && rxed == old(rxed) && lost == old(lost)
      ensures p.runFlag ==> sent == old(sent) + 1 && out == SentProbe(msgSize, BeBytes(sent % TWO_32, 4))
      ensures p.runFlag && !p.sendOk ==>
        !cont && rc == EXIT_FAILURE && delivered == old(delivered) && rxed == old(rxed) && lost == old(lost)
      ensures p.runFlag && p.sendOk ==>
        delivered == old(delivered) + 1 && Handled(p.rx, sent % TWO_32, old(rxed), old(lost), old(timeouts), cont, rc)
      ensures p.runFlag ==> (rc == EXIT_SUCCESS || rc == EXIT_FAILURE) && (!cont ==> rc == EXIT_FAILURE)
      ensures cont ==> nextWakeUp == old(nextWakeUp) + delayNs
      ensures !cont ==> nextWakeUp == old(nextWakeUp)
    {
      if !p.runFlag {
        return false, rcBefore, NotSent;
      }
      var probe := NextSequenceNumber();
      out := SentProbe(msgSize, WriteNet32(host, probe));
      if !p.sendOk {
        return false, EXIT_FAILURE, out;
      }
      CountBytesSent();
      rc := EXIT_SUCCESS;
      if mode < 2 {
        cont, rc := Receive(p.rx, probe);
        if !cont {
          return false, rc, out;
        }
      }
      cont := true;
      Pace();
    }

    /** numberSent++ and header->sequenceNum = htonl(seqNumber++). */
    method NextSequenceNumber() returns (probe: uint32)
      requires Valid()
      modifies this
      ensures Valid() && sent == old(sent) + 1 && probe == sent % TWO_32 && seqNumber == (probe + 1) % TWO_32
      ensures delivered == old(delivered) && rxed == old(rxed) && lost == old(lost) && paced == old(paced)
      ensures timeouts == old(timeouts) && nextWakeUp == old(nextWakeUp)
    {
      Add32OfWrapped(sent, 1);
      Add32OfWrapped(sent + 1, 1);
      numberSent := Add32(numberSent, 1);
      probe := seqNumber;
      seqNumber := Add32(seqNumber, 1);
      sent := sent + 1;
    }

    /** totalBytesSent += msgSize after a send that succeeded. */
    method CountBytesSent()
      requires Valid() && delivered < sent
      modifies this
      ensures Valid() && delivered == old(delivered) + 1
      ensures sent == old(sent) && rxed == old(rxed) && lost == old(lost) && paced == old(paced)
      ensures timeouts == old(timeouts) && nextWakeUp == old(nextWakeUp) && seqNumber == old(seqNumber)
    {
      Add32OfWrapped(bytesSent, msgSize);
      totalBytesSent := Add32(totalBytesSent, msgSize);
      delivered, bytesSent := delivered + 1, bytesSent + msgSize;
    }

    /** The receive and its validation, in modes below 2. */
    method Receive(rx: RxOutcome, probe: uint32) returns (cont: bool, rc: int)
      requires Valid() && mode < 2 && rxed + lost < delivered
      requires seqNumber == (probe + 1) % TWO_32
      modifies this
      ensures Valid() && Handled(rx, probe, old(rxed), old(lost), old(timeouts), cont, rc)
      ensures sent == old(sent) && delivered == old(delivered) && paced == old(paced)
      ensures nextWakeUp == old(nextWakeUp)
    {
      cont, rc := true, EXIT_SUCCESS;
      var bytesRxed := BytesRxed(rx);
      if bytesRxed == EXIT_FAILURE {
        if ErrnoIsEintr(rx) {
          CountLoss(rx.Timeout?);
        } else {
          return false, EXIT_FAILURE;
        }
      } else {
        var rxSeqNumber := rx.seqNum;
        if mode == 0 {
          if bytesRxed != msgSize || rxSeqNumber != Dec32(seqNumber) {
            return false, EXIT_FAILURE;
          }
          RecordSample();
        } else if mode == 1 {
          if bytesRxed != SIZEOF_TGIFACK {
            return false, EXIT_FAILURE;
          }
          if rxSeqNumber != Dec32(seqNumber) {
            rc := EXIT_FAILURE;
          } else {
            RecordSample();
          }
        }
      }
    }

    /**
     * The receive ended with errno EINTR: the loop counts a loss. When the
     * alarm fired (alarmed), AlarmHandler has counted a timeout as well.
     */
    method CountLoss(alarmed: bool)
      requires Valid() && rxed + lost < delivered
      modifies this
      ensures Valid() && lost == old(lost) + 1 && timeouts == old(timeouts) + (if alarmed then 1 else 0)
      ensures rxed == old(rxed) && sent == old(sent) && delivered == old(delivered) && paced == old(paced)
      ensures nextWakeUp == old(nextWakeUp) && seqNumber == old(seqNumber)
    {
      if alarmed {
        Add32OfWrapped(timeouts, 1);
        numberAlarmTimeouts := Add32(numberAlarmTimeouts, 1);
        timeouts := timeouts + 1;
      }
      numberPacketLoss := numberPacketLoss + 1;
      lost := lost + 1;
    }

    /** An accepted reply: one RTT and one OWD sample. */
    method RecordSample()
      requires Valid() && rxed + lost < delivered
      modifies this
      ensures Valid() && rxed == old(rxed) + 1
      ensures lost == old(lost) && sent == old(sent) && delivered == old(delivered) && paced == old(paced)
      ensures timeouts == old(timeouts) && nextWakeUp == old(nextWakeUp) && seqNumber == old(seqNumber)
    {
      Add32OfWrapped(rxed, 1);
      numberRTTSamples, numberOWDSamples := numberRTTSamples + 1, numberOWDSamples + 1;
      numberRxed := Add32(numberRxed, 1);
      rxed := rxed + 1;
    }

    /** The absolute pacing target moves on by delay; a zero delay leaves it. */
    method Pace()
      requires Valid() && paced < delivered
      modifies this
      ensures Valid() && nextWakeUp == old(nextWakeUp) + delayNs
      ensures paced == old(paced) + (if delayNs > 0 then 1 else 0)
      ensures sent == old(sent) && delivered == old(delivered) && rxed == old(rxed) && lost == old(lost)
      ensures timeouts == old(timeouts)
    {
      if delayNs > 0 {
        nextWakeUp := nextWakeUp + delayNs;
        paced := paced + 1;
      }
    }

    /**
     * The loop over a finite run of passes: broke is set when a pass breaks
     * out of it, which ends the run; otherwise every pass is run. Every pass
     * before the last went on, so it sent a probe; the last one sent one
     * too unless runFlag was clear. A pass that breaks with runFlag set
     * leaves rc at EXIT_FAILURE.
     */
    method Run(probes: seq<Probe>) returns (passes: nat, broke: bool, rc: int)
      requires Valid()
      modifies this
      ensures Valid() && passes <= |probes|
      ensures broke ==> passes > 0
      ensures !broke ==> passes == |probes|
      ensures forall i :: 0 <= i < passes && !(broke && i == passes - 1) ==> probes[i].runFlag && probes[i].sendOk
      ensures sent == old(sent) + passes - (if broke && !probes[passes - 1].runFlag then 1 else 0)
      ensures rc == EXIT_SUCCESS || rc == EXIT_FAILURE
      ensures broke && probes[passes - 1].runFlag ==> rc == EXIT_FAILURE
      ensures passes == 0 ==> rc == EXIT_SUCCESS
      ensures rxed + lost <= sent && timeouts <= lost
      ensures nextWakeUp == tsStart + paced * delayNs
    {
      passes, broke, rc := 0, false, EXIT_SUCCESS;
      while passes < |probes| && !broke
        invariant Valid() && passes <= |probes|
        invariant broke ==> passes > 0
        invariant forall i :: 0 <= i < passes && !(broke && i == passes - 1) ==> probes[i].runFlag && probes[i].sendOk
        invariant sent == old(sent) + passes - (if broke && !probes[passes - 1].runFlag then 1 else 0)
        invariant rc == EXIT_SUCCESS || rc == EXIT_FAILURE
        invariant broke && probes[passes - 1].runFlag ==> rc == EXIT_FAILURE
        invariant passes == 0 ==> rc == EXIT_SUCCESS
      {
        var cont, sentProbe;
        cont, rc, sentProbe := Iteration(probes[passes], rc);
        broke := !cont;
        passes := passes + 1;
      }
      RepeatedIsProduct(paced, delayNs);
    }

    /**
     * The statistics exitProcessing derives; RTTSum is floating point in C
     * and is taken as given. The loss rate is a fraction until numberSent
     * wraps around.
     */
    method Report(rttSum: real) returns (avgRTT: real, avgLossRate: real)
      requires Valid()
      ensures numberRTTSamples == 0 ==> avgRTT == 0.0
      ensures numberRTTSamples > 0 ==> avgRTT * numberRTTSamples as real == rttSum
      ensures numberSent == 0 ==> avgLossRate == 0.0
      ensures numberSent > 0 ==> avgLossRate * numberSent as real == numberAlarmTimeouts as real
      ensures sent < TWO_32 ==> 0.0 <= avgLossRate <= 1.0
    {
      avgRTT := AvgRTT(rttSum, numberRTTSamples);
      if sent < TWO_32 {
        BelowWrapIsExact(timeouts, sent);
      }
      avgLossRate := AvgLossRate(numberAlarmTimeouts, numberSent);
    }
  }
}
