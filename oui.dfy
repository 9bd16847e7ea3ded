/**
 * IEEE OUI vendor lookup (`ieee_oui`): a hardware address becomes the
 * hwdb modalias "OUI:" followed by its six octets in upper-case hex, and
 * the hwdb property ID_OUI_FROM_DATABASE of that modalias is the vendor.
 */
module Oui {
  import opened Common

  const HexDigits: string := "0123456789ABCDEF"

  /** The hwdb property that holds the vendor name. */
  const OuiProperty: string := "ID_OUI_FROM_DATABASE"

  /**
   * The hardware database as the core queries it: `sd_hwdb_get(hwdb,
   * modalias, key)` yields the property value or a negative errno.
   */
  type HwdbGet = (string, string) -> Result<string>

  /** An octet in `%02X` form. */
  function HexByte(b: byte): (s: string)
  {
    [HexDigits[b / 16], HexDigits[b % 16]]
  }

  /** Octets in `%02X` form, concatenated (the `ETHER_ADDR_FORMAT_STR` layout). */
  function FormatHex(bs: seq<byte>): (s: string)
    ensures |s| == 2 * |bs|
  {
    if bs == [] then "" else HexByte(bs[0]) + FormatHex(bs[1..])
  }

  /** The value of an upper-case hex digit. */
  function HexValue(c: char): Option<nat>
  {
    if '0' <= c <= '9' then Some(c as nat - '0' as nat)
    else if 'A' <= c <= 'F' then Some(c as nat - 'A' as nat + 10)
    else None
  }

  /** Reads a string of upper-case hex digit pairs back into octets. */
  function ParseHex(s: string): Option<seq<byte>>
  {
    if s == [] then Some([])
    else if |s| == 1 then None
    else
      match (HexValue(s[0]), HexValue(s[1]), ParseHex(s[2..]))
      case (Some(h), Some(l), Some(rest)) =>
        if h < 16 && l < 16 then Some([16 * h + l] + rest) else None
      case _ => None
  }

  lemma HexDigitValue(n: nat)
    requires n < 16
    ensures HexValue(HexDigits[n]) == Some(n)
  {
    if n < 10 {
      assert HexDigits[n] as int == '0' as int + n;
    } else {
      assert HexDigits[n] as int == 'A' as int + n - 10;
    }
  }

  /** Reading the two digits of one octet gives back that octet in front of the rest. */
  lemma ParseHexByte(b: byte, t: string)
    ensures ParseHex(HexByte(b) + t) ==
            match ParseHex(t)
            case None => None
            case Some(rest) => Some([b] + rest)
  {
    var s := HexByte(b) + t;
    assert s[0] == HexDigits[b / 16] && s[1] == HexDigits[b % 16] && s[2..] == t;
    HexDigitValue(b / 16);
    HexDigitValue(b % 16);
    assert 16 * (b as int / 16) + b as int % 16 == b as int;
  }

  /** Hex formatting loses nothing: parsing the digits gives back the octets. */
  lemma {:induction false} ParseFormatHex(bs: seq<byte>)
    ensures ParseHex(FormatHex(bs)) == Some(bs)
  {
    if bs != [] {
      ParseHexByte(bs[0], FormatHex(bs[1..]));
      ParseFormatHex(bs[1..]);
      assert [bs[0]] + bs[1..] == bs;
    }
  }

  /** The modalias `ieee_oui` queries: "OUI:" and all six octets. */
  function OuiModalias(mac: EtherAddr): string
  {
    "OUI:" + FormatHex(mac)
  }

  /**
   * The modalias fits the "OUI:XXYYXXYYXXYY" buffer exactly, starts with
   * "OUI:", and its twelve digits spell the whole address.
   */
  lemma OuiModaliasShape(mac: EtherAddr)
    ensures |OuiModalias(mac)| == 16
    ensures OuiModalias(mac)[..4] == "OUI:"
    ensures ParseHex(OuiModalias(mac)[4..]) == Some(mac)
  {
    assert OuiModalias(mac)[4..] == FormatHex(mac);
    ParseFormatHex(mac);
  }

  /** Distinct addresses are looked up under distinct modaliases. */
  lemma OuiModaliasInjective(a: EtherAddr, b: EtherAddr)
    ensures OuiModalias(a) == OuiModalias(b) <==> a == b
  {
    OuiModaliasShape(a);
    OuiModaliasShape(b);
  }

  /** Whether the first three octets (the OUI) are all zero. */
  predicate ZeroOui(mac: EtherAddr)
  {
    mac[0] == 0 && mac[1] == 0 && mac[2] == 0
  }

  /**
   * `ieee_oui`: -EINVAL without a database query when the database or the
   * address is missing or the OUI is 00:00:00; otherwise exactly what the
   * database answers for the address's modalias, error or description.
   */
  function IeeeOui(hwdb: Option<HwdbGet>, mac: Option<EtherAddr>): (r: Result<string>)
    ensures hwdb.None? || mac.None? || ZeroOui(mac.value) ==> r == Err(-EINVAL)
    ensures hwdb.Some? && mac.Some? && !ZeroOui(mac.value) ==>
              r == hwdb.value(OuiModalias(mac.value), OuiProperty)
  {
    if hwdb.None? then Err(-EINVAL)
    else if mac.None? then Err(-EINVAL)
    else if ZeroOui(mac.value) then Err(-EINVAL)
    else hwdb.value(OuiModalias(mac.value), OuiProperty)
  }

  /**
   * A successful lookup returns a stored description of this very address:
   * the database answered `Ok(d)` for its modalias, and its OUI is not zero.
   */
  lemma IeeeOuiFound(hwdb: Option<HwdbGet>, mac: Option<EtherAddr>, d: string)
    ensures IeeeOui(hwdb, mac) == Ok(d) <==>
            hwdb.Some? && mac.Some? && !ZeroOui(mac.value) &&
            hwdb.value(OuiModalias(mac.value), OuiProperty) == Ok(d)
  {
  }
}
