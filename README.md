# networkctl core, modelled in Dafny

This project models the data handling of systemd's `networkctl`: the part
between the netlink, hwdb and LLDP queries and the `printf` output. It covers:

- the **link directory** (`decode_and_sort_links`): RTM_NEWLINK messages of a
  link dump become `LinkInfo` records (index, name, hardware type), sorted by
  interface index; any accessor failure aborts the whole build;
- the **vendor lookup** (`ieee_oui`): a hardware address becomes the hwdb
  modalias `OUI:` + twelve upper-case hex digits, and the hwdb property
  `ID_OUI_FROM_DATABASE` of that modalias is the vendor;
- the **gateway resolver** (`get_gateway_description`): one pass over a
  neighbour dump, skipping entries through a chain of filters and returning
  the vendor of the first entry that survives them all, or `-ENODATA`;
- the **LLDP neighbour log reader** (the read loop of `link_lldp_status`):
  records of an 8-byte little-endian length N and N payload octets, read
  until a clean end of file, a cut-short prefix or payload, or the first
  frame the decoder rejects;
- the **capability column** (`lldp_capabilities_to_string`) and the small
  classifiers of the status display: state colours, the type column, the
  all-zero hardware address check and the `dump_list` layout.

Netlink replies are sequences of message records. Each field of a record
holds the outcome of the accessor that reads it: a value, or a negative
errno. The hwdb is a function from (modalias, property) to a value or an
errno. The LLDP frame decoder and `arphrd_to_name` are function
parameters. A log file is its octets plus whether reading past them
reports an I/O error instead of end of file.

Files: `common.dfy` holds the shared types and constants. `links.dfy`,
`oui.dfy`, `gateway.dfy`, `lldp.dfy` and `status.dfy` each hold one part
of the core.

Points of the code's behaviour worth knowing:

- The gateway resolver returns only the vendor description, not the
  hardware address.
- An entry for the gateway that has no `NDA_LLADDR`, or whose vendor lookup
  fails, does not end the scan. It is skipped and the scan goes on, so a
  later entry for the same gateway can supply the answer.
  `GatewaySkipsEntryWithoutHardwareAddress` states this for every dump,
  `GatewaySkipsEntryExample` exhibits one, and
  `GatewayAgreesWithFirstAddressMatch` states when the plain
  "first address match wins" rule and the code agree. Without a hwdb,
  nothing is ever found (`GatewayNeedsHwdb`).
- The hwdb modalias spells all six octets of the address, not only the
  three-octet OUI.
- Only an all-zero OUI is rejected. Locally administered prefixes are not
  treated specially.
- Interface indexes are not checked for uniqueness, and `qsort` is not
  stable. The builder therefore promises sortedness and a permutation, and
  no order among entries with equal indexes.

## Model

| member | source | states |
|---|---|---|
| `Links.LinkInfoCompare` | src/network/networkctl.c:115-119 | for kernel interface indexes the subtraction cannot overflow a C `int`, and its sign is exactly the order of the two indexes (negative, zero, positive) |
| `Links.DecodeLinksKeepsNewLinks` | src/network/networkctl.c:127-158 | a successful build has exactly one entry per RTM_NEWLINK message: the k-th entry is read from the k-th such message, so the count equals the number of RTM_NEWLINK messages; other message types contribute nothing |
| `Links.DecodeLinksFailsAtFirstBadMessage` | src/network/networkctl.c:133-150 | the build fails with errno e if and only if some message's accessor (type, then ifindex, name, iftype for RTM_NEWLINK) fails with e and every earlier message was readable |
| `Links.SortByIndex` | src/network/networkctl.c:161 | the in-place sort leaves the array ordered by `link_info_compare` and is a permutation of its input |
| `Links.DecodeAndSortLinks` | src/network/networkctl.c:121-167 | on any accessor failure, returns that errno and no list; otherwise returns the kept links sorted by index and as a permutation of the decoded RTM_NEWLINK entries |
| `Oui.ParseFormatHex` | src/network/networkctl.c:280-281 | `%02X` formatting of octets loses nothing: parsing the hex digits gives back the octets |
| `Oui.OuiModaliasShape` | src/network/networkctl.c:265-281 | the modalias is 16 characters (the size of "OUI:XXYYXXYYXXYY"), starts with "OUI:", and its twelve digits decode to all six octets of the address |
| `Oui.OuiModaliasInjective` | src/network/networkctl.c:280-281 | two addresses get the same modalias exactly when they are equal |
| `Oui.IeeeOui` | src/network/networkctl.c:263-294 | -EINVAL without querying when the hwdb or the address is missing or octets 0..2 are zero; otherwise exactly the database's answer for the address's modalias and ID_OUI_FROM_DATABASE, error or description |
| `Oui.IeeeOuiFound` | src/network/networkctl.c:283-293 | the lookup returns description d exactly when both inputs are present, the OUI is not zero, and the database stores d for that address |
| `Gateway.GetGatewayDescription` | src/network/networkctl.c:296-400 | the loop with its `continue`s and early return computes the first-accepted-entry description, or -ENODATA |
| `Gateway.GatewayFoundIsFirstAccepted` | src/network/networkctl.c:325-396 | a returned description comes from an entry that passes every filter (no errno, RTM_NEWNEIGH, family, ifindex when > 0, NDA_DST equal to the gateway, NDA_LLADDR present, vendor lookup succeeds), and every earlier entry was skipped |
| `Gateway.FirstAcceptedIsFound` | src/network/networkctl.c:325-396 | conversely, the description of the first entry in delivery order that passes every filter is what is returned |
| `Gateway.GatewayNotFoundIffNoneAccepted` | src/network/networkctl.c:325-399 | the resolver fails if and only if no entry passes every filter, and then always with -ENODATA |
| `Gateway.GatewayNeedsHwdb` | src/network/networkctl.c:392-399 | without a hardware database the resolver returns -ENODATA for every dump |
| `Gateway.GatewayAgreesWithFirstAddressMatch` | src/network/networkctl.c:325-396 | if no entry matches the address filters, the result is -ENODATA; if the first address match has a hardware address the vendor lookup knows, that vendor is returned |
| `Gateway.GatewaySkipsEntryWithoutHardwareAddress` | src/network/networkctl.c:385-396 | when the first entry for the gateway (address filters passed) has no NDA_LLADDR, or an address the vendor lookup rejects, the scan does not stop there: the result is exactly what the entries after it give |
| `Gateway.GatewaySkipsEntryExample` | src/network/networkctl.c:388-394 | example: a dump whose first entry for the gateway lacks NDA_LLADDR yields the vendor of the second entry for the same gateway |
| `Lldp.LeDecodeEncode` | src/network/networkctl.c:843 | reading back the 8-octet little-endian encoding of a length below 2^64 gives that length |
| `Lldp.LeEncodeDecode` | src/network/networkctl.c:843 | every 8-octet prefix is the little-endian encoding of the length `le64toh` reads from it |
| `Lldp.Fread` | src/network/networkctl.c:834-849 | `fread` delivers the next octets of the file, up to the amount asked for; it is short only at the end of the file, and then sets end-of-file unless the stream ends in an I/O error |
| `Lldp.ReadOpenLog` | src/network/networkctl.c:827-857 | the `for (;;)` loop over an opened file yields exactly the records and the outcome of the framing scan |
| `Lldp.ReadRecord` | src/network/networkctl.c:834-856 | one pass of the loop body: it stops with the outcome of the `break` taken exactly where the framing scan stops, or reads one record and moves strictly forward, the scan then being that record followed by the scan of the rest |
| `Lldp.ReadLog` | src/network/networkctl.c:812-857 | a log that cannot be opened yields no records (outcome NoLog); otherwise the read loop's records and outcome |
| `Lldp.ScanFramedPrefix` | src/network/networkctl.c:827-857 | well-formed records at the front of a log are all read, in file order, before reading goes on with what follows them |
| `Lldp.ReadLogFramed` | src/network/networkctl.c:827-857 | a log that is exactly a concatenation of records that all decode yields every record in file order and ends Completed |
| `Lldp.CompletedLogIsFramed` | src/network/networkctl.c:834-837 | reading ends Completed only for a log that does not end in an I/O error and is exactly a concatenation of records that all decode; the records are then those decoded payloads |
| `Lldp.ReadLogTruncatedPrefix` | src/network/networkctl.c:834-840 | a cut-short length prefix (1 to 7 octets, or none before an I/O error) keeps exactly the records before it and ends TruncatedPrefix |
| `Lldp.ReadLogTruncatedPayload` | src/network/networkctl.c:843-849 | a payload shorter than its prefix announces keeps exactly the records before it and ends TruncatedPayload |
| `Lldp.ReadLogStopsAtMalformed` | src/network/networkctl.c:852-856 | the first frame the decoder rejects keeps exactly the records before it and ends Malformed, whatever follows in the file |
| `Lldp.CapabilitiesToString` | src/network/networkctl.c:756-772 | the buffer filled index by index is the capability column: character i is the letter of bit i or '.' |
| `Lldp.CapabilityStringExample` | src/network/networkctl.c:756-772 | capability value 5 (bits 0 and 2) renders as "o.b........" |
| `Lldp.CapabilityStringIgnoresHighBits` | src/network/networkctl.c:756-772 | the column always has 11 characters, and bits 11 to 15 have no effect on it |
| `Lldp.CapabilityStringInjective` | src/network/networkctl.c:756-772 | two capability values render alike exactly when they agree on bits 0 to 10 |
| `Lldp.LinkLldpStatus` | src/network/networkctl.c:774-884 | a failing link directory build fails the command with that errno; otherwise the rows are the records of every link's log, link after link, in the order of a sorted permutation of the directory |
| `Lldp.MissingLogsShowNothing` | src/network/networkctl.c:818-822 | a link whose log cannot be opened, wherever it stands in the directory, adds no rows: the table is that of the directory without it (and it raises no error, since `LinkLldpStatus` fails only when the directory build fails) |
| `Status.OperationalStateColor` | src/network/networkctl.c:169-181 | green exactly for "routable", yellow exactly for "degraded", never red, no colour otherwise (a missing state included) |
| `Status.SetupStateColor` | src/network/networkctl.c:183-198 | green exactly for "configured", yellow exactly for "configuring", red exactly for "failed" or "linger", no colour otherwise |
| `Status.AsciiLowerIsLower` | src/network/networkctl.c:103 | the lower-cased type name has no ASCII upper-case letter left, and lowering it again changes nothing |
| `Status.LinkTypeString` | src/network/networkctl.c:64-107 | returns 1 with "wlan"/"wwan" exactly for an ARPHRD_ETHER link whose device type says so; otherwise returns 0 with the lower-cased hardware type name, or no name |
| `Status.HaveMac` | src/network/networkctl.c:558-571 | a hardware address is shown exactly when IFLA_ADDRESS was read and one of its six octets is not zero |
| `Status.DumpList` | src/network/networkctl.c:491-503 | one line per value; every value starts in column strlen(prefix); the first line begins with the label and later lines with as many blanks; an empty list prints nothing |

## Left out

- Command-line parsing, help text, the pager, the verb dispatcher and `main`: glue with no data handling.
- Netlink plumbing: opening the socket, building requests, dump flags and `sd_netlink_call`. Their failures are not modelled; the replies are inputs.
- `sd_lldp_neighbor_from_raw` and the neighbour accessors: the frame decoder is a parameter, and the model records only the fields the display reads.
- `sd_hwdb_get`, `arphrd_to_name`, `sd_device_get_devtype`, `sd_network_*` state queries, `local_addresses`, `local_gateways`, `in_addr_to_string` and `if_indextoname`: external lookups. The first three are parameters or plain values; the rest are not used by the modelled functions.
- Output formatting: the `printf` columns of `list_links`, `link_status_one`, `system_status`, `dump_addresses` and `dump_gateways`, and the ANSI escapes. Colours are an enumeration; the `dump_list` lines omit their newline.
- The "Total entries displayed" counter of `link_lldp_status`: it is never incremented and only printed.
- Allocation failures (`-ENOMEM`, `log_oom`), including the payload buffer for an enormous length prefix.
- Open errors other than ENOENT: like a missing file, they give a link no records (`NoLog`).
- Log messages are not modelled. The LLDP `Outcome` of `ReadLog` says which warning the reader prints (:823, :839, :848, :854), but `LinkLldpStatus` does not return it. The gateway resolver's `log_error` calls for skipped entries (:331-363) are dropped, and its later skips (:365-366, :370-378, :385-394) print nothing at all.
- `Lldp.LinkLldpStatus`: reads a link's whole log before producing its rows, where the source prints each row as soon as its record is read. The rows come out in the same order; the two differ only if allocation fails part-way, which is not modelled.
- `Lldp.Fread`: an I/O error is modelled only at the end of the file's octets, not part-way through.
- `Links.LinkInfo`: the source borrows the name from the reply message without copying it; the model holds the string itself.
- `Links.Ifindex`: indexes are positive C `int`s, as the kernel assigns them. For such values `link_info_compare` cannot overflow.
- `Gateway.NeighMsg`: NDA_DST is the address read for the entry's family; the model does not separately check the attribute's size.
