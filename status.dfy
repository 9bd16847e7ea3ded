/**
 * The small classifiers of the status display: state colours, the type
 * column, the all-zero hardware address check of `link_status_one`, and
 * the layout `dump_list` gives a list of values under a label.
 */
module Status {
  import opened Common

  /** The highlight a state is shown in; `NoColor` is the empty escape. */
  datatype Color = Green | Yellow | Red | NoColor

  /** `operational_state_to_color`; a missing state is `None`. */
  function OperationalStateColor(state: Option<string>): (c: Color)
    ensures c == Green <==> state == Some("routable")
    ensures c == Yellow <==> state == Some("degraded")
    ensures c != Red
  {
    if state == Some("routable") then Green
    else if state == Some("degraded") then Yellow
    else NoColor
  }

  /** `setup_state_to_color`; a missing state is `None`. */
  function SetupStateColor(state: Option<string>): (c: Color)
    ensures c == Green <==> state == Some("configured")
    ensures c == Yellow <==> state == Some("configuring")
    ensures c == Red <==> state == Some("failed") || state == Some("linger")
  {
    if state == Some("configured") then Green
    else if state == Some("configuring") then Yellow
    else if state == Some("failed") || state == Some("linger") then Red
    else NoColor
  }

  // ---------------------------------------------------------------------
  // The type column (`link_get_type_string`)

  /** The udev device of a link, as far as the type column reads it. */
  datatype Device = Device(devtype: Option<string>)

  /** `arphrd_to_name`, which is not part of this model: a name per hardware type, if any. */
  type ArphrdNames = u16 -> Option<string>

  function LowerChar(c: char): char
  {
    if 'A' <= c <= 'Z' then (c as int - 'A' as int + 'a' as int) as char else c
  }

  /** `ascii_strlower`: ASCII upper-case letters become lower-case, all else stays. */
  function AsciiLower(s: string): (r: string)
    ensures |r| == |s|
    ensures forall i :: 0 <= i < |s| ==> r[i] == LowerChar(s[i])
  {
    if s == [] then [] else [LowerChar(s[0])] + AsciiLower(s[1..])
  }

  /** After lowering, no ASCII upper-case letter is left and lowering again changes nothing. */
  lemma AsciiLowerIsLower(s: string)
    ensures forall i :: 0 <= i < |s| ==> !('A' <= AsciiLower(s)[i] <= 'Z')
    ensures AsciiLower(AsciiLower(s)) == AsciiLower(s)
  {
  }

  /** What `link_get_type_string` returns: its return value and the string it stores. */
  datatype TypeString = TypeString(ret: int, name: Option<string>)

  /**
   * `link_get_type_string`: returns 1 with "wlan" or "wwan" for an Ethernet
   * link whose device says so, and otherwise 0 with the lower-cased name of
   * the hardware type (none for an unnamed type).
   */
  function LinkTypeString(iftype: u16, d: Option<Device>, names: ArphrdNames): (r: TypeString)
    ensures r.ret == 1 <==>
            iftype == ARPHRD_ETHER && d.Some? &&
            (d.value.devtype == Some("wlan") || d.value.devtype == Some("wwan"))
    ensures r.ret == 1 ==> r.name == d.value.devtype
    ensures r.ret == 0 || r.ret == 1
    ensures r.ret == 0 ==>
              r.name == match names(iftype) case None => None case Some(t) => Some(AsciiLower(t))
  {
    var id :=
      if iftype == ARPHRD_ETHER && d.Some? then
        if d.value.devtype == Some("wlan") then Some("wlan")
        else if d.value.devtype == Some("wwan") then Some("wwan")
        else None
      else None;
    if id.Some? then TypeString(1, id)
    else
      match names(iftype)
      case None => TypeString(0, None)
      case Some(t) => TypeString(0, Some(AsciiLower(t)))
  }

  // ---------------------------------------------------------------------
  // The hardware address line of `link_status_one`

  /**
   * Whether the status shows a hardware address: IFLA_ADDRESS was read
   * and at least one of its six octets is not zero.
   */
  method HaveMac(read: Result<EtherAddr>) returns (haveMac: bool)
    ensures haveMac <==> read.Ok? && exists i :: 0 <= i < 6 && read.value[i] != 0
  {
    haveMac := read.Ok?;
    if haveMac {
      var e := read.value;
      var allZeroes := true;
      var p := 0;
      while p < 6
        invariant 0 <= p <= 6
        invariant forall k :: 0 <= k < p ==> e[k] == 0
      {
        if e[p] != 0 {
          allZeroes := false;
          break;
        }
        p := p + 1;
      }
      if allZeroes {
        haveMac := false;
      }
    }
  }

  // ---------------------------------------------------------------------
  // `dump_list`

  /** `printf("%*s", width, s)`: `s` right-aligned in a field of `width`. */
  function PadLeft(s: string, width: nat): (r: string)
    ensures |s| >= width ==> r == s
    ensures |s| < width ==> |r| == width && r[width - |s|..] == s &&
                            forall i :: 0 <= i < width - |s| ==> r[i] == ' '
  {
    if |s| >= width then s else Spaces(width - |s|) + s
  }

  /**
   * `dump_list`: one line per value (without its newline); the first line
   * starts with the label, every later one with as many blanks, so all
   * values start in the same column. An empty list prints nothing.
   */
  method DumpList(prefix: string, l: seq<string>) returns (lines: seq<string>)
    ensures |lines| == |l|
    ensures forall i :: 0 <= i < |l| ==>
              |lines[i]| == |prefix| + |l[i]| && lines[i][|prefix|..] == l[i]
    ensures |l| > 0 ==> lines[0][..|prefix|] == prefix
    ensures forall i :: 0 < i < |l| ==> lines[i][..|prefix|] == Spaces(|prefix|)
  {
    lines := [];
    if |l| == 0 {
      return;
    }
    for i := 0 to |l|
      invariant |lines| == i
      invariant forall k :: 0 <= k < i ==>
                  |lines[k]| == |prefix| + |l[k]| && lines[k][|prefix|..] == l[k]
      invariant i > 0 ==> lines[0][..|prefix|] == prefix
      invariant forall k :: 0 < k < i ==> lines[k][..|prefix|] == Spaces(|prefix|)
    {
      var line := PadLeft(if i == 0 then prefix else "", |prefix|) + l[i];
      lines := lines + [line];
    }
  }
}
