/**
 * The static table of ICMP conditions (icmp_errors.py): for each defined ICMP
 * type, the description of each of its defined codes.
 */
module IcmpErrors {
  import opened Wrappers

  /** `ICMP_CONTROL_MESSAGE`: ICMP type to (code to description). */
  const ControlMessage: map<int, map<int, string>> := map[
    0 := map[
      0 := "Echo Reply"],
    3 := map[
      0 := "Destination Network Unreachable",
      1 := "Destination Host Unreachable",
      2 := "Destination protocol unreachable",
      3 := "Destination port unreachable",
      4 := "Fragmentation required, and DF flag set",
      5 := "Source route failed",
      6 := "Destination network unknown",
      7 := "Destination host unknown",
      8 := "Source host isolated",
      9 := "Network administratively prohibited",
      10 := "Host administratively prohibited",
      11 := "Network unreachable for TOS",
      12 := "Host unreachable for TOS",
      13 := "Communication administratively prohibited",
      14 := "Host Precedence Violation",
      15 := "Precedence cutoff in effect"],
    4 := map[
      0 := "Source quench"],
    5 := map[
      0 := "Redirect Datagram for the Network",
      1 := "Redirect Datagram for the Host",
      2 := "Redirect Datagram for the TOS & network",
      3 := "Redirect Datagram for the TOS & host"],
    8 := map[
      0 := "Echo request"],
    9 := map[
      0 := "Router Advertisement"],
    10 := map[
      0 := "Router discovery/selection/solicitation"],
    11 := map[
      0 := "TTL expired in transit",
      1 := "Fragment reassembly time exceeded"],
    12 := map[
      0 := "Pointer indicates the error",
      1 := "Missing a required option",
      2 := "Bad length"],
    13 := map[
      0 := "Timestamp"],
    14 := map[
      0 := "Timestamp reply"]
  ]

  /** `ControlMessage[icmpType][code]`, or None where that double index would raise KeyError. */
  function Describe(icmpType: int, code: int): (r: Option<string>)
    ensures r.Some? <==> icmpType in ControlMessage && code in ControlMessage[icmpType]
    ensures r.Some? ==> r.value == ControlMessage[icmpType][code]
  {
    if icmpType in ControlMessage && code in ControlMessage[icmpType]
    then Some(ControlMessage[icmpType][code])
    else None
  }

  /** The defined types are exactly these; any other type has no entry. */
  lemma DefinedTypes(icmpType: int)
    ensures icmpType in ControlMessage <==> icmpType in {0, 3, 4, 5, 8, 9, 10, 11, 12, 13, 14}
  {
  }

  /** Type 3 (destination unreachable) is defined for exactly the codes 0..15. */
  lemma DestinationUnreachableCodes(code: int)
    ensures Describe(3, code).Some? <==> 0 <= code <= 15
  {
  }

  /** Type 11 has exactly codes 0 and 1, type 12 exactly codes 0..2. */
  lemma TimeExceededAndParameterProblemCodes(code: int)
    ensures Describe(11, code).Some? <==> 0 <= code <= 1
    ensures Describe(11, 0) == Some("TTL expired in transit")
    ensures Describe(11, 1) == Some("Fragment reassembly time exceeded")
    ensures Describe(12, code).Some? <==> 0 <= code <= 2
  {
  }

  /** The entry behind the `'0: Echo Reply'` test of the ping loop. */
  lemma EchoReplyEntry()
    ensures Describe(0, 0) == Some("Echo Reply")
  {
  }

  /** The entry the synthetic timeout header {3, 0} selects. */
  lemma NetworkUnreachableEntry()
    ensures Describe(3, 0) == Some("Destination Network Unreachable")
  {
  }

  /** The entry a router's "host unreachable" selects. */
  lemma HostUnreachableEntry()
    ensures Describe(3, 1) == Some("Destination Host Unreachable")
  {
  }

  /** Types without an entry, such as 1, 2, 6 and 7, have no description for any code. */
  lemma UndefinedTypes(code: int)
    ensures Describe(1, code).None? && Describe(2, code).None?
    ensures Describe(6, code).None? && Describe(7, code).None?
  {
  }

  /** Every described condition has a code in 0..15. */
  lemma DescribedCodesAreSmall(icmpType: int, code: int)
    requires Describe(icmpType, code).Some?
    ensures 0 <= code <= 15
  {
  }
}
