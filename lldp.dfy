/**
 * LLDP neighbour display (`link_lldp_status`): for every link of the
 * directory, the per-link log file written by the LLDP collector is read
 * record by record, each record being an 8-byte little-endian length N
 * followed by N bytes of raw LLDP frame.
 */
module Lldp {
  import opened Common
  import opened Links

  /** A decoded neighbour, as far as the display reads it. */
  datatype Neighbor = Neighbor(
    chassisId: Option<string>,
    portId: Option<string>,
    systemName: Option<string>,
    portDescription: Option<string>,
    enabledCapabilities: Option<bv16>)

  /**
   * `sd_lldp_neighbor_from_raw`, which is not part of this model: any
   * function from the raw frame to a neighbour, or `None` for a frame it
   * rejects.
   */
  type FrameDecoder = seq<byte> -> Option<Neighbor>

  // ---------------------------------------------------------------------
  // The 64-bit little-endian length prefix (`le64toh`)

  function Pow256(k: nat): (p: nat)
    ensures p > 0
  {
    if k == 0 then 1 else 256 * Pow256(k - 1)
  }

  /** The value of octets read least significant first. */
  function LeDecode(s: seq<byte>): (n: nat)
    ensures n < Pow256(|s|)
  {
    if s == [] then 0
    else
      var rest := LeDecode(s[1..]);
      assert rest <= Pow256(|s| - 1) - 1;
      assert 256 * rest <= 256 * Pow256(|s| - 1) - 256;
      s[0] + 256 * rest
  }

  /** The `k` octets that hold `n`, least significant first. */
  function LeEncode(n: nat, k: nat): (s: seq<byte>)
    requires n < Pow256(k)
    ensures |s| == k
  {
    if k == 0 then []
    else [n % 256] + LeEncode(n / 256, k - 1)
  }

  lemma {:induction false} LeDecodeEncode(n: nat, k: nat)
    requires n < Pow256(k)
    ensures LeDecode(LeEncode(n, k)) == n
  {
    if k > 0 {
      var s := LeEncode(n, k);
      assert s[1..] == LeEncode(n / 256, k - 1);
      LeDecodeEncode(n / 256, k - 1);
    }
  }

  lemma {:induction false} LeEncodeDecode(s: seq<byte>)
    ensures LeEncode(LeDecode(s), |s|) == s
  {
    if s != [] {
      var n := LeDecode(s);
      assert n % 256 == s[0] && n / 256 == LeDecode(s[1..]);
      LeEncodeDecode(s[1..]);
    }
  }

  // ---------------------------------------------------------------------
  // The log file and `fread`

  /**
   * A log file: its octets, and whether reading past them reports an I/O
   * error instead of end of file.
   */
  datatype LogFile = LogFile(bytes: seq<byte>, endsInError: bool)

  /** What `fread` delivers, and whether `feof` is set afterwards. */
  datatype Chunk = Chunk(data: seq<byte>, eof: bool)

  /** `fread` of `n` octets at offset `pos`: as many as remain, up to `n`. */
  function Fread(f: LogFile, pos: nat, n: nat): (c: Chunk)
    requires pos <= |f.bytes|
    ensures |c.data| <= n && pos + |c.data| <= |f.bytes|
    ensures c.data == f.bytes[pos..pos + |c.data|]
    ensures |c.data| < n ==> pos + |c.data| == |f.bytes|
    ensures c.eof <==> |c.data| < n && !f.endsInError
  {
    var k := if n <= |f.bytes| - pos then n else |f.bytes| - pos;
    Chunk(f.bytes[pos..pos + k], k < n && !f.endsInError)
  }

  // ---------------------------------------------------------------------
  // The framing

  /** How the read loop of one file ended. */
  datatype Outcome =
    | Completed         // clean end of file before a length prefix
    | TruncatedPrefix   // fewer than 8 octets of length prefix
    | TruncatedPayload  // fewer than N octets of payload
    | Malformed         // the decoder rejected the frame
    | NoLog             // the log file could not be opened

  datatype ScanResult = ScanResult(records: seq<Neighbor>, outcome: Outcome)

  /** Records decoded before `r`'s are kept in front of them. */
  function Then(records: seq<Neighbor>, r: ScanResult): ScanResult
  {
    ScanResult(records + r.records, r.outcome)
  }

  /**
   * The records of a log's octets and how reading them ends: a record at
   * a time until the octets run out, a prefix or payload is cut short, or
   * a frame fails to decode.
   */
  function Scan(bytes: seq<byte>, endsInError: bool, decode: FrameDecoder): ScanResult
    decreases |bytes|
  {
    if |bytes| == 0 then ScanResult([], if endsInError then TruncatedPrefix else Completed)
    else if |bytes| < 8 then ScanResult([], TruncatedPrefix)
    else
      var n := LeDecode(bytes[..8]);
      if |bytes| - 8 < n then ScanResult([], TruncatedPayload)
      else
        match decode(bytes[8..8 + n])
        case None => ScanResult([], Malformed)
        case Some(rec) => Then([rec], Scan(bytes[8 + n..], endsInError, decode))
  }

  lemma ThenThen(a: seq<Neighbor>, b: seq<Neighbor>, r: ScanResult)
    ensures Then(a, Then(b, r)) == Then(a + b, r)
  {
    assert a + (b + r.records) == (a + b) + r.records;
  }

  /** Reading one record whose payload is `p`, followed by `tail`. */
  lemma ScanOneRecord(p: seq<byte>, tail: seq<byte>, endsInError: bool, decode: FrameDecoder)
    requires |p| < Pow256(8)
    ensures Scan(LeEncode(|p|, 8) + p + tail, endsInError, decode) ==
            match decode(p)
            case None => ScanResult([], Malformed)
            case Some(rec) => Then([rec], Scan(tail, endsInError, decode))
  {
    var bytes := LeEncode(|p|, 8) + p + tail;
    assert bytes[..8] == LeEncode(|p|, 8);
    LeDecodeEncode(|p|, 8);
    assert bytes[8..8 + |p|] == p;
    assert bytes[8 + |p|..] == tail;
  }

  /** The records shown for a link: none when its log is missing. */
  function LogRecords(file: Option<LogFile>, decode: FrameDecoder): seq<Neighbor>
  {
    match file
    case None => []
    case Some(f) => Scan(f.bytes, f.endsInError, decode).records
  }

  /**
   * The per-link log of `link_lldp_status`: nothing when the file could not
   * be opened, otherwise what the read loop yields.
   */
  method ReadLog(file: Option<LogFile>, decode: FrameDecoder) returns (records: seq<Neighbor>, outcome: Outcome)
    ensures file.None? ==> records == [] && outcome == NoLog
    ensures file.Some? ==>
              ScanResult(records, outcome) == Scan(file.value.bytes, file.value.endsInError, decode)
    ensures records == LogRecords(file, decode)
  {
    if file.None? {
      return [], NoLog;
    }
    records, outcome := ReadOpenLog(file.value, decode);
  }

  /** A scan that stops at once keeps the records read before it. */
  lemma ThenStop(records: seq<Neighbor>, outcome: Outcome)
    ensures Then(records, ScanResult([], outcome)) == ScanResult(records, outcome)
  {
    assert records + [] == records;
  }

  /** What one pass of the read loop does: stop with an outcome, or read a record. */
  datatype Step = Stop(outcome: Outcome) | Record(rec: Neighbor, next: nat)

  /**
   * One pass of the read loop at offset `pos`, told by what its two
   * `fread` calls deliver there: the length prefix, then the payload and
   * its decoding.
   */
  function StepAt(f: LogFile, pos: nat, decode: FrameDecoder): Step
    requires pos <= |f.bytes|
  {
    var u := Fread(f, pos, 8);
    if |u.data| == 0 && u.eof then Stop(Completed)
    else if |u.data| != 8 then Stop(TruncatedPrefix)
    else
      var n := LeDecode(u.data);
      var raw := Fread(f, pos + 8, n);
      if |raw.data| != n then Stop(TruncatedPayload)
      else
        match decode(raw.data)
        case None => Stop(Malformed)
        case Some(rec) => Record(rec, pos + 8 + n)
  }

  /** One pass of the read loop is one step of `Scan` on the octets from `pos` on. */
  lemma ScanAt(f: LogFile, pos: nat, decode: FrameDecoder)
    requires pos <= |f.bytes|
    ensures StepAt(f, pos, decode).Stop? ==>
              Scan(f.bytes[pos..], f.endsInError, decode) == ScanResult([], StepAt(f, pos, decode).outcome)
    ensures StepAt(f, pos, decode).Record? ==>
              var next := StepAt(f, pos, decode).next;
              pos < next <= |f.bytes| &&
              Scan(f.bytes[pos..], f.endsInError, decode) ==
              Then([StepAt(f, pos, decode).rec], Scan(f.bytes[next..], f.endsInError, decode))
  {
    var rest := f.bytes[pos..];
    var u := Fread(f, pos, 8);
    if |u.data| == 8 {
      assert rest[..8] == u.data;
      var n := LeDecode(u.data);
      var raw := Fread(f, pos + 8, n);
      if |raw.data| == n {
        assert rest[8..8 + n] == raw.data;
        assert rest[8 + n..] == f.bytes[pos + 8 + n..];
        if decode(raw.data).Some? {
          assert Scan(rest, f.endsInError, decode) ==
                 Then([decode(raw.data).value], Scan(rest[8 + n..], f.endsInError, decode));
        }
      }
    }
  }

  /**
   * One pass of the read loop at offset `pos`: the length prefix, the
   * payload and its decoding, with the `break`s of the source as `Stop`.
   */
  method ReadRecord(f: LogFile, pos: nat, decode: FrameDecoder) returns (s: Step)
    requires pos <= |f.bytes|
    ensures s.Stop? ==> Scan(f.bytes[pos..], f.endsInError, decode) == ScanResult([], s.outcome)
    ensures s.Record? ==>
              pos < s.next <= |f.bytes| &&
              Scan(f.bytes[pos..], f.endsInError, decode) ==
              Then([s.rec], Scan(f.bytes[s.next..], f.endsInError, decode))
  {
    var u := Fread(f, pos, 8);
    if |u.data| == 0 && u.eof {
      s := Stop(Completed);
    } else if |u.data| != 8 {
      s := Stop(TruncatedPrefix);
    } else {
      var n := LeDecode(u.data);
      var raw := Fread(f, pos + 8, n);
      if |raw.data| != n {
        s := Stop(TruncatedPayload);
      } else {
        var rec := decode(raw.data);
        if rec.None? {
          s := Stop(Malformed);
        } else {
          s := Record(rec.value, pos + 8 + n);
        }
      }
    }
    assert s == StepAt(f, pos, decode);
    ScanAt(f, pos, decode);
  }

  /** The `for (;;)` loop of `link_lldp_status` over one opened log file. */
  method ReadOpenLog(f: LogFile, decode: FrameDecoder) returns (records: seq<Neighbor>, outcome: Outcome)
    ensures ScanResult(records, outcome) == Scan(f.bytes, f.endsInError, decode)
  {
    records := [];
    var pos := 0;
    ghost var whole := Scan(f.bytes, f.endsInError, decode);
    assert f.bytes[pos..] == f.bytes;
    assert records + whole.records == whole.records;
    // each pass is one step of `Scan`, to which the loop is proved equal
    while true
      invariant 0 <= pos <= |f.bytes|
      invariant whole == Then(records, Scan(f.bytes[pos..], f.endsInError, decode))
      decreases |f.bytes| - pos
    {
      var step := ReadRecord(f, pos, decode);
      if step.Stop? {
        ThenStop(records, step.outcome);
        return records, step.outcome;
      }
      ThenThen(records, [step.rec], Scan(f.bytes[step.next..], f.endsInError, decode));
      pos := step.next;
      records := records + [step.rec];
    }
  }

  // ---------------------------------------------------------------------
  // What the framing promises

  /** Every payload fits the 64-bit length prefix. */
  predicate Frameable(payloads: seq<seq<byte>>)
  {
    forall k :: 0 <= k < |payloads| ==> |payloads[k]| < Pow256(8)
  }

  /** The log a collector writes for these payloads. */
  function Frame(payloads: seq<seq<byte>>): (s: seq<byte>)
    requires Frameable(payloads)
  {
    if payloads == [] then []
    else LeEncode(|payloads[0]|, 8) + payloads[0] + Frame(payloads[1..])
  }

  predicate AllDecode(payloads: seq<seq<byte>>, decode: FrameDecoder)
  {
    forall k :: 0 <= k < |payloads| ==> decode(payloads[k]).Some?
  }

  function Decoded(payloads: seq<seq<byte>>, decode: FrameDecoder): (rs: seq<Neighbor>)
    requires AllDecode(payloads, decode)
    ensures |rs| == |payloads|
  {
    if payloads == [] then []
    else [decode(payloads[0]).value] + Decoded(payloads[1..], decode)
  }

  /**
   * Well-formed records in front of anything are read one by one, in
   * order, and reading then goes on with what follows them.
   */
  lemma {:induction false} ScanFramedPrefix(payloads: seq<seq<byte>>, rest: seq<byte>,
                                           endsInError: bool, decode: FrameDecoder)
    requires Frameable(payloads) && AllDecode(payloads, decode)
    ensures Scan(Frame(payloads) + rest, endsInError, decode) ==
            Then(Decoded(payloads, decode), Scan(rest, endsInError, decode))
  {
    if payloads == [] {
      assert Frame(payloads) + rest == rest;
      assert [] + Scan(rest, endsInError, decode).records == Scan(rest, endsInError, decode).records;
    } else {
      var p := payloads[0];
      var tail := Frame(payloads[1..]) + rest;
      assert Frame(payloads) + rest == LeEncode(|p|, 8) + p + tail;
      ScanOneRecord(p, tail, endsInError, decode);
      ScanFramedPrefix(payloads[1..], rest, endsInError, decode);
      ThenThen([decode(p).value], Decoded(payloads[1..], decode), Scan(rest, endsInError, decode));
    }
  }

  /**
   * Round trip: a log that is exactly a concatenation of well-formed
   * records yields every record, in file order, and ends at end of file.
   */
  lemma ReadLogFramed(payloads: seq<seq<byte>>, decode: FrameDecoder)
    requires Frameable(payloads) && AllDecode(payloads, decode)
    ensures Scan(Frame(payloads), false, decode) == ScanResult(Decoded(payloads, decode), Completed)
  {
    ScanFramedPrefix(payloads, [], false, decode);
    assert Frame(payloads) + [] == Frame(payloads);
  }

  /** A sequence is its three consecutive slices put back together. */
  lemma SplitThree<T>(s: seq<T>, i: nat, j: nat)
    requires i <= j <= |s|
    ensures s == s[..i] + s[i..j] + s[j..]
  {
    assert s[..j] == s[..i] + s[i..j];
    assert s == s[..j] + s[j..];
  }

  /** One more record in front: the log and the records grow by it. */
  lemma FrameCons(p: seq<byte>, ps: seq<seq<byte>>, decode: FrameDecoder)
    requires |p| < Pow256(8) && Frameable(ps) && AllDecode(ps, decode) && decode(p).Some?
    ensures Frameable([p] + ps) && AllDecode([p] + ps, decode)
    ensures Frame([p] + ps) == LeEncode(|p|, 8) + p + Frame(ps)
    ensures Decoded([p] + ps, decode) == [decode(p).value] + Decoded(ps, decode)
  {
    assert ([p] + ps)[1..] == ps;
  }

  /**
   * The converse: reading ends at end of file only for a log that is an
   * exact concatenation of records that all decode, and then the records
   * are exactly the decoded payloads.
   */
  lemma {:induction false} CompletedLogIsFramed(bytes: seq<byte>, endsInError: bool, decode: FrameDecoder)
    requires Scan(bytes, endsInError, decode).outcome == Completed
    ensures !endsInError
    ensures exists payloads :: Frameable(payloads) && AllDecode(payloads, decode) &&
              bytes == Frame(payloads) &&
              Scan(bytes, endsInError, decode).records == Decoded(payloads, decode)
  {
    if bytes == [] {
      assert Frameable([]) && AllDecode([], decode) && bytes == Frame([]);
    } else {
      var n := LeDecode(bytes[..8]);
      var p := bytes[8..8 + n];
      var tail := bytes[8 + n..];
      var rec := decode(p).value;
      assert Scan(bytes, endsInError, decode) == Then([rec], Scan(tail, endsInError, decode));
      CompletedLogIsFramed(tail, endsInError, decode);
      var ps :| Frameable(ps) && AllDecode(ps, decode) && tail == Frame(ps) &&
                Scan(tail, endsInError, decode).records == Decoded(ps, decode);
      LeEncodeDecode(bytes[..8]);
      FrameCons(p, ps, decode);
      SplitThree(bytes, 8, 8 + n);
      var payloads := [p] + ps;
      assert Frameable(payloads) && AllDecode(payloads, decode) && bytes == Frame(payloads) &&
             Scan(bytes, endsInError, decode).records == Decoded(payloads, decode);
    }
  }

  /**
   * A cut-short length prefix (1 to 7 octets, or none where the file ends
   * in a read error) keeps exactly the records before it.
   */
  lemma ReadLogTruncatedPrefix(payloads: seq<seq<byte>>, tail: seq<byte>, endsInError: bool,
                               decode: FrameDecoder)
    requires Frameable(payloads) && AllDecode(payloads, decode)
    requires |tail| < 8
    requires tail == [] ==> endsInError
    ensures Scan(Frame(payloads) + tail, endsInError, decode) ==
            ScanResult(Decoded(payloads, decode), TruncatedPrefix)
  {
    ScanFramedPrefix(payloads, tail, endsInError, decode);
  }

  /**
   * A payload shorter than its length prefix announces keeps exactly the
   * records before it.
   */
  lemma ReadLogTruncatedPayload(payloads: seq<seq<byte>>, n: nat, tail: seq<byte>,
                                endsInError: bool, decode: FrameDecoder)
    requires Frameable(payloads) && AllDecode(payloads, decode)
    requires n < Pow256(8) && |tail| < n
    ensures Scan(Frame(payloads) + (LeEncode(n, 8) + tail), endsInError, decode) ==
            ScanResult(Decoded(payloads, decode), TruncatedPayload)
  {
    var cut := LeEncode(n, 8) + tail;
    ScanFramedPrefix(payloads, cut, endsInError, decode);
    assert cut[..8] == LeEncode(n, 8);
    LeDecodeEncode(n, 8);
  }

  /**
   * Stop on the first malformed record: the records before it are kept
   * and nothing after it is read, however well-formed the rest may be.
   */
  lemma ReadLogStopsAtMalformed(payloads: seq<seq<byte>>, bad: seq<byte>, rest: seq<byte>,
                                endsInError: bool, decode: FrameDecoder)
    requires Frameable(payloads) && AllDecode(payloads, decode)
    requires |bad| < Pow256(8) && decode(bad).None?
    ensures Scan(Frame(payloads) + (LeEncode(|bad|, 8) + bad + rest), endsInError, decode) ==
            ScanResult(Decoded(payloads, decode), Malformed)
  {
    var after := LeEncode(|bad|, 8) + bad + rest;
    ScanFramedPrefix(payloads, after, endsInError, decode);
    assert after[..8] == LeEncode(|bad|, 8);
    LeDecodeEncode(|bad|, 8);
    assert after[8..8 + |bad|] == bad;
  }

  // ---------------------------------------------------------------------
  // Capabilities (`lldp_capabilities_to_string`)

  /** One character per capability bit 0..10, in the order of the legend. */
  const CapabilityChars: string := "opbwrtdacsm"

  predicate BitSet(x: bv16, i: nat)
    requires i < 16
  {
    x & (1 << i) != 0
  }

  function CapabilityChar(x: bv16, i: nat): char
    requires i < 11
  {
    if BitSet(x, i) then CapabilityChars[i] else '.'
  }

  /** The capability column: character i is the letter of bit i or '.'. */
  function CapabilityString(x: bv16): string
  {
    seq(11, i requires 0 <= i < 11 => CapabilityChar(x, i))
  }

  /** `lldp_capabilities_to_string`: fills an 11-character buffer. */
  method CapabilitiesToString(x: bv16) returns (s: string)
    ensures s == CapabilityString(x)
  {
    var ret := new char[11];
    for i := 0 to 11
      invariant forall k :: 0 <= k < i ==> ret[k] == CapabilityChar(x, k)
    {
      ret[i] := if x & (1 << i) != 0 then CapabilityChars[i] else '.';
    }
    s := ret[..];
  }

  /** Bits 0 and 2 (Other, Bridge). */
  lemma CapabilityStringExample()
    ensures CapabilityString(5) == "o.b........"
  {
  }

  /** Bits 11 to 15 have no effect on the column. */
  lemma CapabilityStringIgnoresHighBits(x: bv16)
    ensures |CapabilityString(x)| == 11
    ensures CapabilityString(x) == CapabilityString(x & 0x7FF)
  {
  }

  /**
   * The column is lossless for bits 0 to 10: two capability sets render
   * alike exactly when they agree on those bits.
   */
  lemma CapabilityStringInjective(x: bv16, y: bv16)
    ensures CapabilityString(x) == CapabilityString(y) <==> x & 0x7FF == y & 0x7FF
  {
    CapabilityStringIgnoresHighBits(x);
    CapabilityStringIgnoresHighBits(y);
    if CapabilityString(x) == CapabilityString(y) {
      assert CapabilityString(x)[0] == CapabilityString(y)[0];
      assert CapabilityString(x)[1] == CapabilityString(y)[1];
      assert CapabilityString(x)[2] == CapabilityString(y)[2];
      assert CapabilityString(x)[3] == CapabilityString(y)[3];
      assert CapabilityString(x)[4] == CapabilityString(y)[4];
      assert CapabilityString(x)[5] == CapabilityString(y)[5];
      assert CapabilityString(x)[6] == CapabilityString(y)[6];
      assert CapabilityString(x)[7] == CapabilityString(y)[7];
      assert CapabilityString(x)[8] == CapabilityString(y)[8];
      assert CapabilityString(x)[9] == CapabilityString(y)[9];
      assert CapabilityString(x)[10] == CapabilityString(y)[10];
    }
  }

  // ---------------------------------------------------------------------
  // The whole display

  /** One line of the neighbour table, before column formatting. */
  datatype LldpRow = LldpRow(
    link: string,
    chassisId: Option<string>,
    systemName: Option<string>,
    capabilities: Option<string>,
    portId: Option<string>,
    portDescription: Option<string>)

  function RowOf(link: string, n: Neighbor): LldpRow
  {
    LldpRow(link, n.chassisId, n.systemName,
            match n.enabledCapabilities
            case Some(c) => Some(CapabilityString(c))
            case None => None,
            n.portId, n.portDescription)
  }

  function RowsOf(link: string, ns: seq<Neighbor>): (rows: seq<LldpRow>)
    ensures |rows| == |ns|
  {
    if ns == [] then [] else RowsOf(link, ns[..|ns| - 1]) + [RowOf(link, ns[|ns| - 1])]
  }

  /** The log of a link lives at a path derived from its index alone. */
  function LogOf(logs: map<Ifindex, LogFile>, ifindex: Ifindex): Option<LogFile>
  {
    if ifindex in logs then Some(logs[ifindex]) else None
  }

  /** The rows of the table: each link's records, link after link. */
  function LldpRows(links: seq<LinkInfo>, logs: map<Ifindex, LogFile>, decode: FrameDecoder): seq<LldpRow>
  {
    if links == [] then []
    else
      var l := links[|links| - 1];
      LldpRows(links[..|links| - 1], logs, decode) + RowsOf(l.name, LogRecords(LogOf(logs, l.ifindex), decode))
  }

  /** Extending the records by one extends the rows by that record's row. */
  lemma RowsOfStep(link: string, ns: seq<Neighbor>, k: nat)
    requires k < |ns|
    ensures RowsOf(link, ns[..k + 1]) == RowsOf(link, ns[..k]) + [RowOf(link, ns[k])]
  {
    assert ns[..k + 1][..k] == ns[..k];
  }

  /** Extending the directory by one link extends the table by that link's rows. */
  lemma LldpRowsStep(links: seq<LinkInfo>, i: nat, logs: map<Ifindex, LogFile>, decode: FrameDecoder)
    requires i < |links|
    ensures LldpRows(links[..i + 1], logs, decode) ==
            LldpRows(links[..i], logs, decode) +
            RowsOf(links[i].name, LogRecords(LogOf(logs, links[i].ifindex), decode))
  {
    assert links[..i + 1][..i] == links[..i];
  }

  /** The rows printed for one link's records, in file order. */
  method LinkRows(link: string, records: seq<Neighbor>) returns (rows: seq<LldpRow>)
    ensures rows == RowsOf(link, records)
  {
    rows := [];
    for k := 0 to |records|
      invariant rows == RowsOf(link, records[..k])
    {
      var n := records[k];
      var caps: Option<string> := None;
      if n.enabledCapabilities.Some? {
        var c := CapabilitiesToString(n.enabledCapabilities.value);
        caps := Some(c);
      }
      RowsOfStep(link, records, k);
      rows := rows + [LldpRow(link, n.chassisId, n.systemName, caps, n.portId, n.portDescription)];
    }
    assert records[..|records|] == records;
  }

  /**
   * `link_lldp_status` without its output: builds the link directory
   * (failing as the builder fails) and collects every link's records.
   */
  method LinkLldpStatus(dump: seq<LinkMsg>, logs: map<Ifindex, LogFile>, decode: FrameDecoder)
    returns (r: Result<seq<LldpRow>>)
    ensures DecodeLinks(dump).Err? ==> r == Err(DecodeLinks(dump).code)
    ensures DecodeLinks(dump).Ok? ==>
              r.Ok? &&
              exists links :: SortedByIndex(links) &&
                multiset(links) == multiset(DecodeLinks(dump).value) &&
                r.value == LldpRows(links, logs, decode)
  {
    var built := DecodeAndSortLinks(dump);
    if built.Err? {
      return Err(built.code);
    }
    var links := built.value;
    var rows: seq<LldpRow> := [];
    for i := 0 to |links|
      invariant rows == LldpRows(links[..i], logs, decode)
    {
      var l := links[i];
      var records, outcome := ReadLog(LogOf(logs, l.ifindex), decode);
      var linkRows := LinkRows(l.name, records);
      LldpRowsStep(links, i, logs, decode);
      rows := rows + linkRows;
    }
    assert links[..|links|] == links;
    r := Ok(rows);
  }

  /** The table of a directory with one more link at its end. */
  lemma LldpRowsSnoc(links: seq<LinkInfo>, l: LinkInfo, logs: map<Ifindex, LogFile>, decode: FrameDecoder)
    ensures LldpRows(links + [l], logs, decode) ==
            LldpRows(links, logs, decode) + RowsOf(l.name, LogRecords(LogOf(logs, l.ifindex), decode))
  {
    assert (links + [l])[..|links|] == links;
  }

  /**
   * A link without a log contributes no rows: wherever it stands in the
   * directory, the table is the one of the directory without it.
   */
  lemma {:induction false} MissingLogsShowNothing(front: seq<LinkInfo>, l: LinkInfo, back: seq<LinkInfo>,
                                                  logs: map<Ifindex, LogFile>, decode: FrameDecoder)
    requires l.ifindex !in logs
    ensures LldpRows(front + [l] + back, logs, decode) == LldpRows(front + back, logs, decode)
  {
    if back == [] {
      LldpRowsSnoc(front, l, logs, decode);
      assert front + [l] + back == front + [l];
      assert front + back == front;
    } else {
      var b := back[..|back| - 1];
      var x := back[|back| - 1];
      MissingLogsShowNothing(front, l, b, logs, decode);
      assert front + [l] + back == (front + [l] + b) + [x];
      assert front + back == (front + b) + [x];
      LldpRowsSnoc(front + [l] + b, x, logs, decode);
      LldpRowsSnoc(front + b, x, logs, decode);
    }
  }
}
