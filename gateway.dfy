/**
 * Gateway resolver (`get_gateway_description`): scans the reply to an
 * RTM_GETNEIGH dump in delivery order and returns the vendor description
 * of the first neighbour entry for the gateway address whose hardware
 * address the vendor lookup knows.
 */
module Gateway {
  import opened Common
  import opened Oui

  /**
   * One message of the neighbour dump. `errno` is what
   * `sd_netlink_message_get_errno` reports (negative for an error message);
   * every other field is the outcome of the accessor that reads it.
   */
  datatype NeighMsg = NeighMsg(
    errno: int,
    msgType: Result<u16>,       // sd_netlink_message_get_type
    family: Result<int>,        // sd_rtnl_message_neigh_get_family
    ifindex: Result<int>,       // sd_rtnl_message_neigh_get_ifindex
    dst: Result<seq<byte>>,     // NDA_DST, read as an address of the entry's family
    lladdr: Result<EtherAddr>)  // NDA_LLADDR

  /**
   * The answer one entry gives: the vendor description when the entry
   * passes every filter of the scan, `None` when the scan skips it.
   */
  function Accepted(m: NeighMsg, hwdb: Option<HwdbGet>, ifindex: int, family: int,
                    gateway: seq<byte>): Option<string>
  {
    if m.errno < 0 then None
    else if m.msgType != Ok(RTM_NEWNEIGH) then None
    else if m.family != Ok(family) then None
    else if m.ifindex.Err? || (ifindex > 0 && m.ifindex.value != ifindex) then None
    else if m.dst != Ok(gateway) then None
    else if m.lladdr.Err? then None
    else
      match IeeeOui(hwdb, Some(m.lladdr.value))
      case Ok(d) => Some(d)
      case Err(_) => None
  }

  /** The first accepted entry's description, or -ENODATA when none is accepted. */
  function GatewayDescription(dump: seq<NeighMsg>, hwdb: Option<HwdbGet>, ifindex: int,
                              family: int, gateway: seq<byte>): Result<string>
  {
    if dump == [] then Err(-ENODATA)
    else
      match Accepted(dump[0], hwdb, ifindex, family, gateway)
      case Some(d) => Ok(d)
      case None => GatewayDescription(dump[1..], hwdb, ifindex, family, gateway)
  }

  /**
   * `get_gateway_description` over the dump reply: one pass in delivery
   * order, skipping entries, returning on the first that survives.
   */
  method GetGatewayDescription(dump: seq<NeighMsg>, hwdb: Option<HwdbGet>, ifindex: int,
                               family: int, gateway: seq<byte>) returns (r: Result<string>)
    requires ifindex >= 0
    requires family == AF_INET || family == AF_INET6
    requires |gateway| == AddrLen(family)
    ensures r == GatewayDescription(dump, hwdb, ifindex, family, gateway)
  {
    var i := 0;
    // the filters below are those of `Accepted`; the loop is proved equal to `GatewayDescription`
    while i < |dump|
      invariant 0 <= i <= |dump|
      invariant GatewayDescription(dump, hwdb, ifindex, family, gateway) ==
                GatewayDescription(dump[i..], hwdb, ifindex, family, gateway)
    {
      var m := dump[i];
      assert dump[i..][0] == m && dump[i..][1..] == dump[i + 1..];
      i := i + 1;
      if m.errno < 0 {
        continue;
      }
      if m.msgType.Err? || m.msgType.value != RTM_NEWNEIGH {
        continue;
      }
      if m.family.Err? || m.family.value != family {
        continue;
      }
      if m.ifindex.Err? {
        continue;
      }
      if ifindex > 0 && m.ifindex.value != ifindex {
        continue;
      }
      // the family is AF_INET or AF_INET6 here, so the default arm of the C
      // `switch` on the family (networkctl.c:368-383) is never taken
      if m.dst.Err? {
        continue;
      }
      if m.dst.value != gateway {
        continue;
      }
      if m.lladdr.Err? {
        continue;
      }
      var desc := IeeeOui(hwdb, Some(m.lladdr.value));
      if desc.Err? {
        continue;
      }
      return Ok(desc.value);
    }
    assert dump[i..] == [];
    return Err(-ENODATA);
  }

  /** Entry `k` is accepted with description `d` and every entry before it is skipped. */
  ghost predicate FirstAcceptedAt(dump: seq<NeighMsg>, k: int, hwdb: Option<HwdbGet>, ifindex: int,
                                  family: int, gateway: seq<byte>, d: string)
  {
    && 0 <= k < |dump|
    && Accepted(dump[k], hwdb, ifindex, family, gateway) == Some(d)
    && forall j :: 0 <= j < k ==> Accepted(dump[j], hwdb, ifindex, family, gateway).None?
  }

  /** First match wins, one direction: a description comes from the first accepted entry. */
  lemma {:induction false} GatewayFoundIsFirstAccepted(
      dump: seq<NeighMsg>, hwdb: Option<HwdbGet>, ifindex: int, family: int,
      gateway: seq<byte>, d: string)
    requires GatewayDescription(dump, hwdb, ifindex, family, gateway) == Ok(d)
    ensures exists k :: FirstAcceptedAt(dump, k, hwdb, ifindex, family, gateway, d)
  {
    var tail := dump[1..];
    if Accepted(dump[0], hwdb, ifindex, family, gateway).Some? {
      assert FirstAcceptedAt(dump, 0, hwdb, ifindex, family, gateway, d);
    } else {
      GatewayFoundIsFirstAccepted(tail, hwdb, ifindex, family, gateway, d);
      var k :| FirstAcceptedAt(tail, k, hwdb, ifindex, family, gateway, d);
      assert dump[k + 1] == tail[k];
      assert forall j :: 0 < j <= k ==> dump[j] == tail[j - 1];
      assert FirstAcceptedAt(dump, k + 1, hwdb, ifindex, family, gateway, d);
    }
  }

  /** First match wins, other direction: the first accepted entry's description is returned. */
  lemma {:induction false} FirstAcceptedIsFound(
      dump: seq<NeighMsg>, k: int, hwdb: Option<HwdbGet>, ifindex: int, family: int,
      gateway: seq<byte>, d: string)
    requires FirstAcceptedAt(dump, k, hwdb, ifindex, family, gateway, d)
    ensures GatewayDescription(dump, hwdb, ifindex, family, gateway) == Ok(d)
  {
    if k > 0 {
      var tail := dump[1..];
      assert forall j :: 0 <= j < k - 1 ==> tail[j] == dump[j + 1];
      assert FirstAcceptedAt(tail, k - 1, hwdb, ifindex, family, gateway, d);
      FirstAcceptedIsFound(tail, k - 1, hwdb, ifindex, family, gateway, d);
    }
  }

  /**
   * Running out of entries: the resolver fails exactly when no entry is
   * accepted, and then always with -ENODATA.
   */
  lemma {:induction false} GatewayNotFoundIffNoneAccepted(
      dump: seq<NeighMsg>, hwdb: Option<HwdbGet>, ifindex: int, family: int, gateway: seq<byte>)
    ensures GatewayDescription(dump, hwdb, ifindex, family, gateway).Err? <==>
            forall j :: 0 <= j < |dump| ==> Accepted(dump[j], hwdb, ifindex, family, gateway).None?
    ensures GatewayDescription(dump, hwdb, ifindex, family, gateway).Err? ==>
            GatewayDescription(dump, hwdb, ifindex, family, gateway).code == -ENODATA
  {
    if dump != [] {
      var tail := dump[1..];
      GatewayNotFoundIffNoneAccepted(tail, hwdb, ifindex, family, gateway);
      assert forall j :: 0 < j < |dump| ==> dump[j] == tail[j - 1];
    }
  }

  /**
   * Without a hardware database every vendor lookup fails, so every entry
   * is skipped and the resolver reports -ENODATA even when the neighbour
   * table holds the gateway.
   */
  lemma {:induction false} GatewayNeedsHwdb(dump: seq<NeighMsg>, ifindex: int, family: int,
                                           gateway: seq<byte>)
    ensures GatewayDescription(dump, None, ifindex, family, gateway) == Err(-ENODATA)
  {
    if dump != [] {
      GatewayNeedsHwdb(dump[1..], ifindex, family, gateway);
    }
  }

  /**
   * The address filters alone: the entry is a well-formed RTM_NEWNEIGH
   * message of the queried family and interface whose destination is the
   * gateway.
   */
  predicate AddressMatches(m: NeighMsg, ifindex: int, family: int, gateway: seq<byte>)
  {
    && m.errno >= 0
    && m.msgType == Ok(RTM_NEWNEIGH)
    && m.family == Ok(family)
    && m.ifindex.Ok? && (ifindex > 0 ==> m.ifindex.value == ifindex)
    && m.dst == Ok(gateway)
  }

  /** The plain rule "the first entry whose address matches", as an index. */
  function FirstAddressMatch(dump: seq<NeighMsg>, ifindex: int, family: int,
                             gateway: seq<byte>): (k: Option<nat>)
    ensures k.Some? ==> k.value < |dump| && AddressMatches(dump[k.value], ifindex, family, gateway)
    ensures k.Some? ==> forall j :: 0 <= j < k.value ==> !AddressMatches(dump[j], ifindex, family, gateway)
    ensures k.None? ==> forall j :: 0 <= j < |dump| ==> !AddressMatches(dump[j], ifindex, family, gateway)
  {
    if dump == [] then None
    else if AddressMatches(dump[0], ifindex, family, gateway) then Some(0)
    else
      match FirstAddressMatch(dump[1..], ifindex, family, gateway)
      case None => None
      case Some(k) => Some(k + 1)
  }

  lemma AcceptedOnlyIfAddressMatches(m: NeighMsg, hwdb: Option<HwdbGet>, ifindex: int,
                                     family: int, gateway: seq<byte>)
    ensures Accepted(m, hwdb, ifindex, family, gateway).Some? ==>
            AddressMatches(m, ifindex, family, gateway)
  {
  }

  /**
   * The resolver agrees with "first address match wins" whenever that
   * first match has a hardware address the vendor lookup knows, and it
   * finds nothing when no entry matches the address at all.
   */
  lemma {:induction false} GatewayAgreesWithFirstAddressMatch(
      dump: seq<NeighMsg>, hwdb: Option<HwdbGet>, ifindex: int, family: int, gateway: seq<byte>)
    ensures FirstAddressMatch(dump, ifindex, family, gateway).None? ==>
            GatewayDescription(dump, hwdb, ifindex, family, gateway) == Err(-ENODATA)
    ensures var k := FirstAddressMatch(dump, ifindex, family, gateway);
            k.Some? && dump[k.value].lladdr.Ok? &&
            IeeeOui(hwdb, Some(dump[k.value].lladdr.value)).Ok? ==>
            GatewayDescription(dump, hwdb, ifindex, family, gateway) ==
            IeeeOui(hwdb, Some(dump[k.value].lladdr.value))
  {
    if dump != [] {
      GatewayAgreesWithFirstAddressMatch(dump[1..], hwdb, ifindex, family, gateway);
      AcceptedOnlyIfAddressMatches(dump[0], hwdb, ifindex, family, gateway);
    }
  }

  /**
   * Where the two rules part: when the first entry for the gateway has no
   * hardware address, or one the vendor lookup does not know, the scan does
   * not stop there. It goes on, and the answer is whatever the entries after
   * that one give.
   */
  lemma {:induction false} GatewaySkipsEntryWithoutHardwareAddress(
      dump: seq<NeighMsg>, hwdb: Option<HwdbGet>, ifindex: int, family: int, gateway: seq<byte>, k: nat)
    requires FirstAddressMatch(dump, ifindex, family, gateway) == Some(k)
    requires dump[k].lladdr.Err? || IeeeOui(hwdb, Some(dump[k].lladdr.value)).Err?
    ensures GatewayDescription(dump, hwdb, ifindex, family, gateway) ==
            GatewayDescription(dump[k + 1..], hwdb, ifindex, family, gateway)
  {
    AcceptedOnlyIfAddressMatches(dump[0], hwdb, ifindex, family, gateway);
    if k > 0 {
      var tail := dump[1..];
      assert FirstAddressMatch(tail, ifindex, family, gateway) == Some(k - 1);
      assert tail[k - 1] == dump[k];
      GatewaySkipsEntryWithoutHardwareAddress(tail, hwdb, ifindex, family, gateway, k - 1);
      assert tail[k..] == dump[k + 1..];
    }
  }

  /**
   * An instance: the first entry for the gateway lacks NDA_LLADDR, and the
   * vendor of the second entry for the same gateway is reported.
   */
  lemma GatewaySkipsEntryExample()
    ensures var gw: seq<byte> := [192, 168, 0, 1];
            var noMac := NeighMsg(0, Ok(RTM_NEWNEIGH), Ok(AF_INET), Ok(3), Ok(gw), Err(-ENODATA));
            var withMac := NeighMsg(0, Ok(RTM_NEWNEIGH), Ok(AF_INET), Ok(3), Ok(gw), Ok([0, 0x1B, 0x21, 1, 2, 3]));
            var hwdb: HwdbGet := (modalias, key) => Ok("Intel Corporate");
            FirstAddressMatch([noMac, withMac], 0, AF_INET, gw) == Some(0) &&
            GatewayDescription([noMac, withMac], Some(hwdb), 0, AF_INET, gw) == Ok("Intel Corporate")
  {
    var gw: seq<byte> := [192, 168, 0, 1];
    var withMac := NeighMsg(0, Ok(RTM_NEWNEIGH), Ok(AF_INET), Ok(3), Ok(gw), Ok([0, 0x1B, 0x21, 1, 2, 3]));
    var hwdb: HwdbGet := (modalias, key) => Ok("Intel Corporate");
    assert !ZeroOui([0, 0x1B, 0x21, 1, 2, 3]);
    assert Accepted(withMac, Some(hwdb), 0, AF_INET, gw) == Some("Intel Corporate");
  }
}
