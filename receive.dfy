/**
 * `receiveOnePing` (ICMP_Pinger.py:56-94): wait for the Echo Reply that
 * carries the caller's identifier, spending a time budget on every datagram
 * that is not it. The socket is replaced by the sequence of what each
 * `select` call reports; once that sequence is exhausted `select` reports
 * nothing.
 */
module Receive {
  import opened Wrappers
  import opened Bytes
  import opened EchoCodec

  /** What one `select` yields: nothing ready, or a datagram after `elapsed` ticks, read at tick `receivedAt`. */
  datatype SelectEvent = Silence | Datagram(elapsed: nat, packet: seq<byte>, receivedAt: int)

  /** The header a reception reports: the synthetic {type 3, code 0} of line 66, or a decoded one. */
  datatype SeenHeader = SyntheticUnreachable | Seen(header: IcmpHeader)
  {
    function IcmpType(): int
    {
      match this
      case SyntheticUnreachable => 3
      case Seen(h) => h.icmpType
    }

    function Code(): int
    {
      match this
      case SyntheticUnreachable => 0
      case Seen(h) => h.code
    }
  }

  /** The triple `(delay, error_flag, icmp_header)` that `receiveOnePing` returns. */
  datatype Reception = Reception(delay: Option<int>, errorFlag: bool, header: SeenHeader)

  /** Exceptions the probe raises: `struct.error` on a short datagram, KeyError for an unknown condition. */
  datatype Fault = TruncatedHeader | TruncatedStamp | UnknownCondition(icmpType: int, code: int)

  /** The test of lines 84-86. */
  predicate IsReplyFor(id: int, h: IcmpHeader)
  {
    h.code == 0 && h.icmpType == 0 && h.id == id
  }

  /**
   * The match seen on the wire: the type and code bytes are zero and the identifier
   * bytes are `id` laid out as `H`.
   */
  lemma ReplyOnTheWire(id: int, h: IcmpHeader)
    ensures IsReplyFor(id, h) <==>
              0 <= id < 0x1_0000 && Pack(h)[..2] == [0, 0] && Pack(h)[4..6] == LittleEndian16(id)
  {
    var p := Pack(h);
    assert p[..2] == [Int8Bits(h.icmpType), Int8Bits(h.code)];
    assert p[4..6] == LittleEndian16(h.id);
  }

  function Wait(e: SelectEvent): nat
  {
    if e.Datagram? then e.elapsed else 0
  }

  /** Ticks spent in `select` by the first `j` events. */
  function Elapsed(events: seq<SelectEvent>, j: nat): nat
    requires j <= |events|
  {
    if j == 0 then 0 else Elapsed(events, j - 1) + Wait(events[j - 1])
  }

  /** A datagram that decodes but is not the awaited reply. */
  predicate Unrelated(id: int, e: SelectEvent)
  {
    e.Datagram? && DecodeHeader(e.packet).Some? && !IsReplyFor(id, DecodeHeader(e.packet).value)
  }

  /** A datagram that is the awaited reply and carries a whole send stamp. */
  predicate AwaitedReply(id: int, e: SelectEvent)
  {
    e.Datagram? && DecodeHeader(e.packet).Some? && IsReplyFor(id, DecodeHeader(e.packet).value)
    && |e.packet| >= StampOffset + StampLength
  }

  /** The first `j` events are unrelated datagrams, and after each of them budget `timeout` is left over. */
  predicate PassedOver(id: int, timeout: int, events: seq<SelectEvent>, j: nat)
    requires j <= |events|
  {
    j == 0 || (PassedOver(id, timeout, events, j - 1) && Unrelated(id, events[j - 1]) && Elapsed(events, j) < timeout)
  }

  /** The result of waiting with `timeLeft` ticks of budget for the events still to come. */
  function Await(id: int, timeLeft: int, events: seq<SelectEvent>): (r: Result<Reception, Fault>)
    ensures r.Success? && !r.value.errorFlag ==>
              r.value.delay.Some? && r.value.header.Seen? && IsReplyFor(id, r.value.header.header)
    ensures r.Success? && r.value.errorFlag ==> r.value.delay.None?
    decreases |events|
  {
    if |events| == 0 || events[0].Silence? then
      Success(Reception(None, true, SyntheticUnreachable))
    else
      var e := events[0];
      match DecodeHeader(e.packet)
      case None => Failure(TruncatedHeader)
      case Some(h) =>
        if IsReplyFor(id, h) then
          if |e.packet| < StampOffset + StampLength then Failure(TruncatedStamp)
          else
            Success(Reception(Some(e.receivedAt - SendStamp(e.packet)), false, Seen(h)))
        else if timeLeft - e.elapsed <= 0 then
          Success(Reception(None, true, Seen(h)))
        else
          Await(id, timeLeft - e.elapsed, events[1..])
  }

  /** The loop of `receiveOnePing`. */
  method ReceiveOnePing(id: uint16, timeout: int, events: seq<SelectEvent>) returns (r: Result<Reception, Fault>)
    ensures r == Await(id, timeout, events)
  {
    var timeLeft := timeout;
    var i := 0;
    while true
      invariant 0 <= i <= |events|
      invariant timeLeft == timeout - Elapsed(events, i)
      invariant Await(id, timeLeft, events[i..]) == Await(id, timeout, events)
      decreases |events| - i
    {
      if i == |events| || events[i].Silence? {
        return Success(Reception(None, true, SyntheticUnreachable));
      }
      var e := events[i];
      if |e.packet| < IpHeaderLength + IcmpHeaderLength {
        return Failure(TruncatedHeader);
      }
      var h := Unpack(e.packet[IpHeaderLength..IpHeaderLength + IcmpHeaderLength]);
      assert DecodeHeader(e.packet) == Some(h);
      if h.code == 0 && h.icmpType == 0 {
        if h.id == id {
          if |e.packet| < StampOffset + StampLength {
            return Failure(TruncatedStamp);
          }
          var timeSent := DecodeStamp(e.packet[StampOffset..StampOffset + StampLength]);
          return Success(Reception(Some(e.receivedAt - timeSent), false, Seen(h)));
        }
      }
      ghost var before := timeLeft;
      timeLeft := timeLeft - e.elapsed;
      if timeLeft <= 0 {
        return Success(Reception(None, true, Seen(h)));
      }
      AwaitSkips(id, before, timeLeft, events, i);
      i := i + 1;
    }
  }

  /** One unrelated datagram that leaves budget over only spends its wait. */
  lemma AwaitSkips(id: int, timeLeft: int, left: int, events: seq<SelectEvent>, i: nat)
    requires i < |events| && Unrelated(id, events[i])
    requires left == timeLeft - events[i].elapsed && left > 0
    ensures Await(id, timeLeft, events[i..]) == Await(id, left, events[i + 1..])
    ensures Elapsed(events, i + 1) == Elapsed(events, i) + events[i].elapsed
  {
    assert events[i..][1..] == events[i + 1..];
  }

  /** Passing over unrelated datagrams just spends their waits from the budget. */
  lemma {:induction false} AwaitPassesOver(id: int, timeout: int, events: seq<SelectEvent>, j: nat)
    requires j <= |events| && PassedOver(id, timeout, events, j)
    ensures Await(id, timeout, events) == Await(id, timeout - Elapsed(events, j), events[j..])
  {
    if j > 0 {
      AwaitPassesOver(id, timeout, events, j - 1);
      AwaitSkips(id, timeout - Elapsed(events, j - 1), timeout - Elapsed(events, j), events, j - 1);
    } else {
      assert events[j..] == events;
    }
  }

  /** The awaited reply, reached within the budget, is accepted with its round-trip delay. */
  lemma AwaitAccepts(id: int, timeout: int, events: seq<SelectEvent>, j: nat)
    requires j < |events| && PassedOver(id, timeout, events, j) && AwaitedReply(id, events[j])
    ensures var e := events[j];
            Await(id, timeout, events) ==
              Success(Reception(Some(e.receivedAt - SendStamp(e.packet)), false, Seen(DecodeHeader(e.packet).value)))
  {
    AwaitPassesOver(id, timeout, events, j);
  }

  /**
   * The first unrelated datagram after which the cumulative wait reaches the budget
   * ends the wait with a timeout that reports that datagram's header.
   */
  lemma AwaitSpendsBudget(id: int, timeout: int, events: seq<SelectEvent>, j: nat)
    requires j < |events| && PassedOver(id, timeout, events, j)
    requires Unrelated(id, events[j]) && Elapsed(events, j + 1) >= timeout
    ensures Await(id, timeout, events) ==
              Success(Reception(None, true, Seen(DecodeHeader(events[j].packet).value)))
  {
    AwaitPassesOver(id, timeout, events, j);
  }

  /** When `select` reports nothing before any match, the wait ends with the synthetic {3, 0} header. */
  lemma AwaitSelectTimesOut(id: int, timeout: int, events: seq<SelectEvent>, j: nat)
    requires j <= |events| && PassedOver(id, timeout, events, j)
    requires j == |events| || events[j].Silence?
    ensures Await(id, timeout, events) == Success(Reception(None, true, SyntheticUnreachable))
  {
    AwaitPassesOver(id, timeout, events, j);
  }

  /** A reply with any other identifier is never accepted, even when its type and code are (0, 0). */
  lemma ForeignReplyIgnored(id: int, timeLeft: int, e: SelectEvent, rest: seq<SelectEvent>)
    requires e.Datagram? && DecodeHeader(e.packet).Some?
    requires DecodeHeader(e.packet).value.id != id
    ensures Await(id, timeLeft, [e] + rest) ==
              if timeLeft - e.elapsed <= 0 then Success(Reception(None, true, Seen(DecodeHeader(e.packet).value)))
              else Await(id, timeLeft - e.elapsed, rest)
  {
    assert ([e] + rest)[1..] == rest;
  }
}
