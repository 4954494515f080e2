/**
 * One probe (`doOnePing`, ICMP_Pinger.py:123-142) and one host's session of
 * ten probes (`ping`, ICMP_Pinger.py:145-173). The process identifier, the
 * clock readings and what the socket delivers are parameters.
 */
module Session {
  import opened Wrappers
  import opened Bytes
  import opened InternetChecksum
  import opened EchoCodec
  import opened Receive
  import opened IcmpErrors
  import opened Decimal
  import opened Statistics

  /**
   * `delay *= 1000` turns seconds into milliseconds. A tick is one millisecond, so a
   * delay in ticks is already a sample in milliseconds.
   */
  const MsPerTick := 1

  /** The string `ping` compares against at line 163. */
  const EchoReplyText := "0: Echo Reply"

  /** The first slot of what `doOnePing` returns: a delay, or an `"<code>: <message>"` string. */
  datatype ProbeValue = Latency(ticks: int) | Message(text: string)

  datatype ProbeOutcome = ProbeOutcome(value: ProbeValue, errorFlag: bool)

  /** What the environment supplies to one attempt: the clock at send time and what `select` reports. */
  datatype Attempt = Attempt(sendTime: uint64, events: seq<SelectEvent>)

  /** `os.getpid() & 0xFFFF`: the low 16 bits; an identifier below 2^16 is kept as it is. */
  function ProcessId(pid: nat): (id: uint16)
    ensures pid < 0x1_0000 ==> id == pid
  {
    pid % 0x1_0000
  }

  /** Processes whose identifiers differ by 2^16 send, and accept, the same ICMP identifier. */
  lemma ProcessIdWraps(pid: nat)
    ensures ProcessId(pid + 0x1_0000) == ProcessId(pid)
    ensures ProcessId(pid) <= pid
  {
  }

  /** Lines 133-142: a truthy delay is passed on; otherwise the header is described from the table. */
  function Classify(rec: Reception): (r: Result<ProbeOutcome, Fault>)
    ensures r.Success? ==> r.value.errorFlag == rec.errorFlag
    ensures rec.delay.Some? && rec.delay.value != 0 ==> r == Success(ProbeOutcome(Latency(rec.delay.value), rec.errorFlag))
    ensures !(rec.delay.Some? && rec.delay.value != 0) ==>
              match Describe(rec.header.IcmpType(), rec.header.Code())
              case None => r == Failure(UnknownCondition(rec.header.IcmpType(), rec.header.Code()))
              case Some(m) => r.Success? && r.value.value == Message(IntToString(rec.header.Code()) + ": " + m)
  {
    if rec.delay.Some? && rec.delay.value != 0 then
      Success(ProbeOutcome(Latency(rec.delay.value), rec.errorFlag))
    else
      var t, c := rec.header.IcmpType(), rec.header.Code();
      match Describe(t, c)
      case None => Failure(UnknownCondition(t, c))
      case Some(m) => Success(ProbeOutcome(Message(IntToString(c) + ": " + m), rec.errorFlag))
  }

  /** An outcome that `ping` can record: an error, a delay, or the zero-delay Echo Reply string. */
  predicate Recordable(o: ProbeOutcome)
  {
    o.errorFlag || o.value.Latency? || o.value == Message(EchoReplyText)
  }

  /** The outcome of one attempt of `doOnePing`. */
  function Probe(pid: nat, timeout: int, a: Attempt): (r: Result<ProbeOutcome, Fault>)
    ensures r.Success? ==> Recordable(r.value)
  {
    match Await(ProcessId(pid), timeout, a.events)
    case Failure(e) => Failure(e)
    case Success(rec) =>
      EchoReplyRecordable(rec);
      Classify(rec)
  }

  /** An error-free reception describes to a delay or to `'0: Echo Reply'`. */
  lemma EchoReplyRecordable(rec: Reception)
    requires !rec.errorFlag ==> rec.delay.Some? && rec.header.Seen? && rec.header.IcmpType() == 0 && rec.header.Code() == 0
    ensures Classify(rec).Success? ==> Recordable(Classify(rec).value)
  {
    if !rec.errorFlag && rec.delay == Some(0) {
      ZeroDelayReply(rec.header.header);
    }
  }

  /** `doOnePing`: send the request, wait for the reply, classify. Also returns the datagram sent. */
  method DoOnePing(pid: nat, timeout: int, a: Attempt, darwin: bool)
    returns (sent: seq<byte>, r: Result<ProbeOutcome, Fault>)
    ensures sent == EchoRequest(ProcessId(pid), EncodeStamp(a.sendTime))
    ensures r == Probe(pid, timeout, a)
  {
    var myID := ProcessId(pid);
    sent := SendOnePing(myID, EncodeStamp(a.sendTime), darwin);
    var reception := ReceiveOnePing(myID, timeout, a.events);
    match reception
    case Failure(e) =>
      r := Failure(e);
    case Success(rec) =>
      r := Classify(rec);
  }

  /** What `ping` appends for one outcome (lines 160-170). */
  function Record(o: ProbeOutcome): (r: seq<int>)
    requires Recordable(o)
    ensures |r| == if o.errorFlag then 0 else 1
    ensures !o.errorFlag && o.value.Message? ==> r == [0]
    ensures !o.errorFlag && o.value.Latency? ==> r == [o.value.ticks * MsPerTick]
  {
    if o.errorFlag then []
    else
      match o.value
      case Latency(d) => [d * MsPerTick]
      case Message(m) => assert m == EchoReplyText; [0]
  }

  /** The ping times recorded by the first `n` attempts, or the fault that ended the session. */
  function Samples(pid: nat, timeout: int, env: nat -> Attempt, n: nat): (r: Result<seq<int>, Fault>)
    ensures r.Success? ==> |r.value| <= n
  {
    if n == 0 then Success([])
    else
      match Samples(pid, timeout, env, n - 1)
      case Failure(e) => Failure(e)
      case Success(times) =>
        match Probe(pid, timeout, env(n - 1))
        case Failure(e) => Failure(e)
        case Success(o) => Success(times + Record(o))
  }

  /** The datagrams the first `n` attempts send, in order. */
  function Requests(pid: nat, env: nat -> Attempt, n: nat): (r: seq<seq<byte>>)
    ensures |r| == n
  {
    if n == 0 then [] else Requests(pid, env, n - 1) + [EchoRequest(ProcessId(pid), EncodeStamp(env(n - 1).sendTime))]
  }

  /** Attempt `i` sends an Echo Request with the process's identifier and its own send stamp. */
  lemma {:induction false} RequestAt(pid: nat, env: nat -> Attempt, n: nat, i: nat)
    requires i < n
    ensures Requests(pid, env, n)[i] == EchoRequest(ProcessId(pid), EncodeStamp(env(i).sendTime))
  {
    if i < n - 1 {
      RequestAt(pid, env, n - 1, i);
    }
  }

  /**
   * Every datagram a session sends passes the checksum self-check and decodes, behind
   * any IP header, as an Echo Request with the process's identifier, sequence 1 and
   * the attempt's send stamp as payload.
   */
  lemma SentRequestIsWellFormed(pid: nat, env: nat -> Attempt, n: nat, i: nat, ip: seq<byte>)
    requires i < n && |ip| == IpHeaderLength
    ensures var p := Requests(pid, env, n)[i];
            && ChecksumOf(p) == 0
            && DecodeHeader(ip + p).Some?
            && DecodeHeader(ip + p).value.icmpType == 8 && DecodeHeader(ip + p).value.code == 0
            && DecodeHeader(ip + p).value.id == ProcessId(pid) && DecodeHeader(ip + p).value.sequence == 1
            && (ip + p)[StampOffset..] == EncodeStamp(env(i).sendTime)
  {
    RequestAt(pid, env, n, i);
    var data := EncodeStamp(env(i).sendTime);
    EchoRequestSelfCheck(ProcessId(pid), data);
    DecodeEchoRequest(ip, ProcessId(pid), data);
  }

  /** One more attempt: its fault, or its record appended; a fault so far is kept. */
  lemma SamplesStep(pid: nat, timeout: int, env: nat -> Attempt, n: nat)
    ensures Samples(pid, timeout, env, n).Failure? ==> Samples(pid, timeout, env, n + 1) == Samples(pid, timeout, env, n)
    ensures Samples(pid, timeout, env, n).Success? ==>
              match Probe(pid, timeout, env(n))
              case Failure(e) => Samples(pid, timeout, env, n + 1) == Failure(e)
              case Success(o) => Samples(pid, timeout, env, n + 1) == Success(Samples(pid, timeout, env, n).value + Record(o))
  {
  }

  /** An attempt that faults decides the result of the whole session. */
  lemma FaultEndsSession(pid: nat, timeout: int, env: nat -> Attempt, n: nat, m: nat, e: Fault)
    requires n < m && Samples(pid, timeout, env, n).Success?
    requires Probe(pid, timeout, env(n)) == Failure(e)
    ensures Samples(pid, timeout, env, m) == Failure(e)
  {
    SamplesStep(pid, timeout, env, n);
    FaultIsFinal(pid, timeout, env, n + 1, m);
  }

  /** An attempt that does not fault appends its record to the samples so far. */
  lemma RecordStep(pid: nat, timeout: int, env: nat -> Attempt, n: nat, before: seq<int>, o: ProbeOutcome)
    requires Samples(pid, timeout, env, n) == Success(before)
    requires Probe(pid, timeout, env(n)) == Success(o)
    ensures Samples(pid, timeout, env, n + 1) == Success(before + Record(o))
  {
  }

  /** The request of attempt `n` extends the requests so far. */
  lemma RequestsStep(pid: nat, env: nat -> Attempt, n: nat, sent: seq<seq<byte>>, packet: seq<byte>)
    requires sent == Requests(pid, env, n)
    requires packet == EchoRequest(ProcessId(pid), EncodeStamp(env(n).sendTime))
    ensures sent + [packet] == Requests(pid, env, n + 1)
  {
  }

  /** A fault ends the session: no later attempt changes the result. */
  lemma {:induction false} FaultIsFinal(pid: nat, timeout: int, env: nat -> Attempt, n: nat, m: nat)
    requires n <= m && Samples(pid, timeout, env, n).Failure?
    ensures Samples(pid, timeout, env, m) == Samples(pid, timeout, env, n)
  {
    if n < m {
      FaultIsFinal(pid, timeout, env, n, m - 1);
    }
  }

  /** `ping`: exactly ten attempts, the error-free ones recorded. Also returns the datagrams sent. */
  method Ping(pid: nat, timeout: int, env: nat -> Attempt, darwin: bool)
    returns (sent: seq<seq<byte>>, r: Result<seq<int>, Fault>)
    ensures r == Samples(pid, timeout, env, ProbeCount)
    ensures 1 <= |sent| <= ProbeCount
    ensures r.Success? ==> |sent| == ProbeCount
    ensures sent == Requests(pid, env, |sent|)
  {
    var count := 0;
    var pingTimes: seq<int> := [];
    sent := [];
    while count < ProbeCount
      invariant 0 <= count <= ProbeCount && |sent| == count
      invariant sent == Requests(pid, env, count)
      invariant Samples(pid, timeout, env, count) == Success(pingTimes)
    {
      var packet, outcome := DoOnePing(pid, timeout, env(count), darwin);
      RequestsStep(pid, env, count, sent, packet);
      sent := sent + [packet];
      if outcome.Failure? {
        FaultEndsSession(pid, timeout, env, count, ProbeCount, outcome.error);
        return sent, Failure(outcome.error);
      }
      var o := outcome.value;
      ghost var before := pingTimes;
      if !o.errorFlag {
        match o.value
        case Latency(delay) =>
          pingTimes := pingTimes + [delay * MsPerTick];
        case Message(_) =>
          pingTimes := pingTimes + [0];
      }
      assert pingTimes == before + Record(o);
      RecordStep(pid, timeout, env, count, before, o);
      assert Samples(pid, timeout, env, count + 1) == Success(pingTimes);
      count := count + 1;
    }
    r := Success(pingTimes);
  }

  /** A completed session records at most ten samples, so its loss is a percentage. */
  lemma SessionLossIsPercentage(pid: nat, timeout: int, env: nat -> Attempt)
    requires Samples(pid, timeout, env, ProbeCount).Success?
    ensures var k := |Samples(pid, timeout, env, ProbeCount).value|;
            0 <= k <= ProbeCount && 0.0 <= LossPercent(k) <= 100.0
  {
    LossIsPercentage(|Samples(pid, timeout, env, ProbeCount).value|);
  }

  /** A zero-delay Echo Reply becomes the string `'0: Echo Reply'`, not an error, and is recorded as 0. */
  lemma ZeroDelayReply(h: IcmpHeader)
    requires h.icmpType == 0 && h.code == 0
    ensures Classify(Reception(Some(0), false, Seen(h))) == Success(ProbeOutcome(Message(EchoReplyText), false))
    ensures Record(ProbeOutcome(Message(EchoReplyText), false)) == [0]
  {
    var rec := Reception(Some(0), false, Seen(h));
    EchoReplyEntry();
    assert Classify(rec) == Success(ProbeOutcome(Message(IntToString(0) + ": " + "Echo Reply"), false));
    EchoReplyTextIs();
  }

  lemma EchoReplyTextIs()
    ensures IntToString(0) + ": " + "Echo Reply" == EchoReplyText
  {
    SmallCodes();
  }

  /** A timeout with nothing observed is described by the synthetic header as `'0: Destination Network Unreachable'`. */
  lemma SyntheticTimeoutMessage()
    ensures Classify(Reception(None, true, SyntheticUnreachable)) ==
              Success(ProbeOutcome(Message("0: Destination Network Unreachable"), true))
  {
    var text := IntToString(0) + ": " + "Destination Network Unreachable";
    assert Classify(Reception(None, true, SyntheticUnreachable)) == Success(ProbeOutcome(Message(text), true)) by {
      NetworkUnreachableEntry();
    }
    NetworkUnreachableText();
  }

  lemma NetworkUnreachableText()
    ensures IntToString(0) + ": " + "Destination Network Unreachable" == "0: Destination Network Unreachable"
  {
    SmallCodes();
  }

  /** A host that never answers: every attempt times out, nothing is recorded, loss is 100%. */
  lemma {:induction false} SilentHost(pid: nat, timeout: int, env: nat -> Attempt, n: nat)
    requires forall i :: env(i).events == []
    ensures Samples(pid, timeout, env, n) == Success([])
    ensures n == ProbeCount ==> LossPercent(|Samples(pid, timeout, env, n).value|) == 100.0
  {
    if n > 0 {
      SilentHost(pid, timeout, env, n - 1);
      SyntheticTimeoutMessage();
      assert Probe(pid, timeout, env(n - 1)) == Success(ProbeOutcome(Message("0: Destination Network Unreachable"), true));
    }
  }

  /** The reply a local host sends back at once: behind an IP header, an Echo Reply echoing id and stamp. */
  function LocalReply(ip: seq<byte>, checksum: uint16, id: uint16, sequence: int16, sendTime: uint64): seq<byte>
  {
    ip + (Pack(IcmpHeader(0, 0, checksum, id, sequence)) + EncodeStamp(sendTime))
  }

  lemma LocalReplyIsAwaited(ip: seq<byte>, checksum: uint16, id: uint16, sequence: int16, sendTime: uint64, wait: nat)
    requires |ip| == IpHeaderLength
    ensures var e := Datagram(wait, LocalReply(ip, checksum, id, sequence, sendTime), sendTime);
            AwaitedReply(id, e) && SendStamp(e.packet) == sendTime
  {
    var p := LocalReply(ip, checksum, id, sequence, sendTime);
    DecodeBehindIpHeader(ip, IcmpHeader(0, 0, checksum, id, sequence), EncodeStamp(sendTime));
    assert p[StampOffset..StampOffset + StampLength] == EncodeStamp(sendTime);
    StampRoundTrip(sendTime);
  }

  /** Pinging a host that answers every attempt at once records ten samples of 0 ms and no loss. */
  lemma {:induction false} InstantHost(pid: nat, timeout: int, env: nat -> Attempt, n: nat)
    requires forall i :: AnsweredAtOnce(pid, env(i))
    ensures Samples(pid, timeout, env, n).Success?
    ensures var times := Samples(pid, timeout, env, n).value;
            |times| == n && (forall i :: 0 <= i < n ==> times[i] == 0)
    ensures n == ProbeCount ==> LossPercent(|Samples(pid, timeout, env, n).value|) == 0.0
  {
    if n > 0 {
      InstantHost(pid, timeout, env, n - 1);
      var before := Samples(pid, timeout, env, n - 1).value;
      assert Samples(pid, timeout, env, n) == Success(before + [0]) by {
        InstantAttempt(pid, timeout, env(n - 1));
        SamplesStep(pid, timeout, env, n - 1);
      }
    }
  }

  /** The first datagram of the attempt is the awaited reply, received at the very tick it was sent. */
  predicate AnsweredAtOnce(pid: nat, a: Attempt)
  {
    |a.events| >= 1 && AwaitedReply(ProcessId(pid), a.events[0])
    && a.events[0].receivedAt == SendStamp(a.events[0].packet)
  }

  /** One attempt answered at once is the zero-delay Echo Reply: no error, probe text `'0: Echo Reply'`. */
  lemma InstantAttempt(pid: nat, timeout: int, a: Attempt)
    requires AnsweredAtOnce(pid, a)
    ensures Probe(pid, timeout, a) == Success(ProbeOutcome(Message(EchoReplyText), false))
  {
    var h := DecodeHeader(a.events[0].packet).value;
    AwaitAccepts(ProcessId(pid), timeout, a.events, 0);
    ZeroDelayReply(h);
  }

  /**
   * A router's Destination Host Unreachable (type 3, code 1) that uses up the budget yields
   * the error `'1: Destination Host Unreachable'`, which is counted as lost and not recorded.
   */
  lemma HostUnreachable(pid: nat, timeout: int, a: Attempt)
    requires |a.events| >= 1 && a.events[0].Datagram? && a.events[0].elapsed >= timeout
    requires DecodeHeader(a.events[0].packet).Some?
    requires DecodeHeader(a.events[0].packet).value.icmpType == 3 && DecodeHeader(a.events[0].packet).value.code == 1
    ensures Probe(pid, timeout, a) == Success(ProbeOutcome(Message("1: Destination Host Unreachable"), true))
    ensures Record(ProbeOutcome(Message("1: Destination Host Unreachable"), true)) == []
  {
    var h := DecodeHeader(a.events[0].packet).value;
    AwaitSpendsBudget(ProcessId(pid), timeout, a.events, 0);
    HostUnreachableEntry();
    assert Classify(Reception(None, true, Seen(h))) ==
             Success(ProbeOutcome(Message(IntToString(1) + ": " + "Destination Host Unreachable"), true));
    HostUnreachableText();
  }

  lemma HostUnreachableText()
    ensures IntToString(1) + ": " + "Destination Host Unreachable" == "1: Destination Host Unreachable"
  {
    SmallCodes();
  }
}
