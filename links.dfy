/**
 * The link directory: `decode_and_sort_links` turns the reply to an
 * RTM_GETLINK dump into the list of links sorted by interface index.
 */
module Links {
  import opened Common

  /** An interface index as the kernel hands it out: a positive C `int`. */
  type Ifindex = x: int | 0 < x < 0x8000_0000 witness 1

  /** `LinkInfo`: what the directory keeps of one link. */
  datatype LinkInfo = LinkInfo(name: string, ifindex: Ifindex, iftype: u16)

  /**
   * One message of the dump reply. Every field is the outcome of the
   * accessor that reads it: the value, or the errno the accessor failed with.
   */
  datatype LinkMsg = LinkMsg(
    msgType: Result<u16>,    // sd_netlink_message_get_type
    ifindex: Result<Ifindex>, // sd_rtnl_message_link_get_ifindex
    name: Result<string>,     // sd_netlink_message_read_string(IFLA_IFNAME)
    iftype: Result<u16>)      // sd_rtnl_message_link_get_type

  /**
   * `link_info_compare`: the difference of the two indexes. For kernel
   * indexes the C subtraction cannot overflow, and its sign is the order.
   */
  function LinkInfoCompare(x: LinkInfo, y: LinkInfo): (r: int)
    ensures -0x8000_0000 <= r < 0x8000_0000
    ensures r < 0 <==> x.ifindex < y.ifindex
    ensures r == 0 <==> x.ifindex == y.ifindex
    ensures r > 0 <==> x.ifindex > y.ifindex
  {
    x.ifindex - y.ifindex
  }

  /** Ordered as `qsort` with `link_info_compare` leaves an array. */
  predicate SortedByIndex(s: seq<LinkInfo>)
  {
    forall i, j :: 0 <= i < j < |s| ==> LinkInfoCompare(s[i], s[j]) <= 0
  }

  /**
   * What one message contributes: `Ok(None)` for a message that is not
   * RTM_NEWLINK, `Ok(Some(link))` for a readable RTM_NEWLINK message, and
   * the first failing accessor's errno otherwise (accessors in source order).
   */
  function DecodeLink(m: LinkMsg): Result<Option<LinkInfo>>
  {
    match m.msgType
    case Err(e) => Err(e)
    case Ok(t) =>
      if t != RTM_NEWLINK then Ok(None)
      else
        match m.ifindex
        case Err(e) => Err(e)
        case Ok(idx) =>
          match m.name
          case Err(e) => Err(e)
          case Ok(n) =>
            match m.iftype
            case Err(e) => Err(e)
            case Ok(ty) => Ok(Some(LinkInfo(n, idx, ty)))
  }

  /** Puts `p` in front of a successful result; passes a failure through. */
  function Prepend(p: seq<LinkInfo>, r: Result<seq<LinkInfo>>): Result<seq<LinkInfo>>
  {
    match r
    case Ok(v) => Ok(p + v)
    case Err(e) => Err(e)
  }

  lemma PrependTwice(p: seq<LinkInfo>, q: seq<LinkInfo>, r: Result<seq<LinkInfo>>)
    ensures Prepend(p, Prepend(q, r)) == Prepend(p + q, r)
  {
    if r.Ok? {
      assert p + (q + r.value) == (p + q) + r.value;
    }
  }

  /**
   * The directory before sorting: the links of the chain in delivery
   * order, or the first accessor failure met on the way.
   */
  function DecodeLinks(msgs: seq<LinkMsg>): Result<seq<LinkInfo>>
  {
    if msgs == [] then Ok([])
    else
      match DecodeLink(msgs[0])
      case Err(e) => Err(e)
      case Ok(None) => DecodeLinks(msgs[1..])
      case Ok(Some(l)) => Prepend([l], DecodeLinks(msgs[1..]))
  }

  /** The RTM_NEWLINK messages of the chain, in order. */
  function NewLinks(msgs: seq<LinkMsg>): seq<LinkMsg>
  {
    if msgs == [] then []
    else if msgs[0].msgType == Ok(RTM_NEWLINK) then [msgs[0]] + NewLinks(msgs[1..])
    else NewLinks(msgs[1..])
  }

  /**
   * Link filter: a successful build holds one entry per RTM_NEWLINK
   * message, the k-th entry read from the k-th such message, so the count
   * returned is the number of RTM_NEWLINK messages.
   */
  lemma {:induction false} DecodeLinksKeepsNewLinks(msgs: seq<LinkMsg>)
    requires DecodeLinks(msgs).Ok?
    ensures |DecodeLinks(msgs).value| == |NewLinks(msgs)|
    ensures forall k :: 0 <= k < |NewLinks(msgs)| ==>
              DecodeLink(NewLinks(msgs)[k]) == Ok(Some(DecodeLinks(msgs).value[k]))
  {
    if msgs != [] {
      DecodeLinksKeepsNewLinks(msgs[1..]);
    }
  }

  /**
   * Link abort: the build fails with `e` exactly when some message's
   * accessor fails with `e` and every message before it was readable.
   */
  lemma {:induction false} DecodeLinksFailsAtFirstBadMessage(msgs: seq<LinkMsg>, e: Errno)
    ensures DecodeLinks(msgs) == Err(e) <==>
            exists k :: 0 <= k < |msgs| && DecodeLink(msgs[k]) == Err(e) &&
                        forall j :: 0 <= j < k ==> DecodeLink(msgs[j]).Ok?
  {
    if msgs != [] {
      DecodeLinksFailsAtFirstBadMessage(msgs[1..], e);
      var tail := msgs[1..];
      if DecodeLink(msgs[0]).Ok? {
        if exists k :: 0 <= k < |tail| && DecodeLink(tail[k]) == Err(e) &&
                       forall j :: 0 <= j < k ==> DecodeLink(tail[j]).Ok? {
          var k :| 0 <= k < |tail| && DecodeLink(tail[k]) == Err(e) &&
                   forall j :: 0 <= j < k ==> DecodeLink(tail[j]).Ok?;
          assert msgs[k + 1] == tail[k];
          assert forall j :: 0 <= j < k + 1 ==> DecodeLink(msgs[j]).Ok? by {
            forall j | 0 < j < k + 1 ensures DecodeLink(msgs[j]).Ok? {
              assert msgs[j] == tail[j - 1];
            }
          }
        }
        if exists k :: 0 <= k < |msgs| && DecodeLink(msgs[k]) == Err(e) &&
                       forall j :: 0 <= j < k ==> DecodeLink(msgs[j]).Ok? {
          var k :| 0 <= k < |msgs| && DecodeLink(msgs[k]) == Err(e) &&
                   forall j :: 0 <= j < k ==> DecodeLink(msgs[j]).Ok?;
          assert k > 0;
          assert tail[k - 1] == msgs[k];
          assert forall j :: 0 <= j < k - 1 ==> DecodeLink(tail[j]).Ok? by {
            forall j | 0 <= j < k - 1 ensures DecodeLink(tail[j]).Ok? {
              assert tail[j] == msgs[j + 1];
            }
          }
        }
      }
    }
  }

  /** Exchanges two entries of the array. */
  method Swap(a: array<LinkInfo>, i: int, j: int)
    requires 0 <= i < j < a.Length
    modifies a
    ensures a[i] == old(a[j]) && a[j] == old(a[i])
    ensures forall k :: 0 <= k < a.Length && k != i && k != j ==> a[k] == old(a[k])
    ensures multiset(a[..]) == multiset(old(a[..]))
  {
    a[i], a[j] := a[j], a[i];
  }

  /**
   * One insertion step: with `a[..i]` ordered, sinks `a[i]` to its place
   * so that `a[..i + 1]` is ordered.
   */
  method InsertAt(a: array<LinkInfo>, i: int)
    requires 0 <= i < a.Length
    requires forall k, l :: 0 <= k < l < i ==> a[k].ifindex <= a[l].ifindex
    modifies a
    ensures forall k, l :: 0 <= k < l <= i ==> a[k].ifindex <= a[l].ifindex
    ensures multiset(a[..]) == multiset(old(a[..]))
  {
    var j := i;
    while j > 0 && a[j - 1].ifindex > a[j].ifindex
      invariant 0 <= j <= i
      invariant forall k, l :: 0 <= k < l <= i && k != j && l != j ==> a[k].ifindex <= a[l].ifindex
      invariant forall l :: j < l <= i ==> a[j].ifindex < a[l].ifindex
      invariant multiset(a[..]) == multiset(old(a[..]))
    {
      Swap(a, j - 1, j);
      j := j - 1;
    }
  }

  /**
   * The in-place sort `qsort_safe` performs: afterwards the array is
   * ordered by `link_info_compare` and holds the same entries. Entries with
   * equal indexes may end up in any order.
   */
  method SortByIndex(a: array<LinkInfo>)
    modifies a
    ensures SortedByIndex(a[..])
    ensures multiset(a[..]) == multiset(old(a[..]))
  {
    var i := 0;
    while i < a.Length
      invariant 0 <= i <= a.Length
      invariant forall k, l :: 0 <= k < l < i ==> a[k].ifindex <= a[l].ifindex
      invariant multiset(a[..]) == multiset(old(a[..]))
    {
      InsertAt(a, i);
      i := i + 1;
    }
  }

  /**
   * `decode_and_sort_links`: walks the message chain, keeps the
   * RTM_NEWLINK messages, aborts with the first accessor error, and
   * returns the kept links sorted by index (their count is the length).
   */
  method DecodeAndSortLinks(msgs: seq<LinkMsg>) returns (r: Result<seq<LinkInfo>>)
    ensures DecodeLinks(msgs).Err? ==> r == DecodeLinks(msgs)
    ensures DecodeLinks(msgs).Ok? ==>
              r.Ok? && SortedByIndex(r.value) &&
              multiset(r.value) == multiset(DecodeLinks(msgs).value)
  {
    var links: seq<LinkInfo> := [];
    var i := 0;
    assert msgs[i..] == msgs;
    assert Prepend(links, DecodeLinks(msgs)) == DecodeLinks(msgs) by {
      if DecodeLinks(msgs).Ok? {
        assert links + DecodeLinks(msgs).value == DecodeLinks(msgs).value;
      }
    }
    // the same checks as `DecodeLink`, in the same order; proved equal to `DecodeLinks`
    while i < |msgs|
      invariant 0 <= i <= |msgs|
      invariant DecodeLinks(msgs) == Prepend(links, DecodeLinks(msgs[i..]))
    {
      var m := msgs[i];
      assert msgs[i..][0] == m && msgs[i..][1..] == msgs[i + 1..];
      if m.msgType.Err? {
        return Err(m.msgType.code);
      }
      if m.msgType.value != RTM_NEWLINK {
        i := i + 1;
        continue;
      }
      if m.ifindex.Err? {
        return Err(m.ifindex.code);
      }
      if m.name.Err? {
        return Err(m.name.code);
      }
      if m.iftype.Err? {
        return Err(m.iftype.code);
      }
      var l := LinkInfo(m.name.value, m.ifindex.value, m.iftype.value);
      PrependTwice(links, [l], DecodeLinks(msgs[i + 1..]));
      links := links + [l];
      i := i + 1;
    }
    assert msgs[i..] == [];
    var a := new LinkInfo[|links|](k requires 0 <= k < |links| => links[k]);
    assert a[..] == links;
    SortByIndex(a);
    r := Ok(a[..]);
  }
}
