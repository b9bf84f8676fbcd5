# ip_tool: a verified model of the range ledger and the collision audit

`ip_tool.py` has two halves that share one CSV file, the *ledger*:

- **The publisher.**
  - `get_ip_ranges` walks the interfaces that `netifaces` reports. For every AF_INET entry that has both an address and a netmask, it builds `address/prefix`. The prefix comes from `netmask_to_cidr`, which counts the one bits of each dotted piece.
  - `save_ip_ranges` appends one `owner,range` line per range to the ledger.
- **The auditor.**
  - `check_collisions` reads the ledger back as a two-column table.
  - It turns every range into a network with `ipaddress.ip_network(range, strict=False)`.
  - It compares every two rows once, using `itertools.combinations`. Every pair whose networks overlap becomes one record of the collision table.
  - It writes that table as a CSV report, but only when the table is not empty.
  - A missing file, or any exception, gives back an empty table.

The project is made of one module per concern:

| file | module | what it holds |
|---|---|---|
| `wrappers.dfy` | `Wrappers` | `Option` and `Result` |
| `text.dfy` | `Text` | `str.split`, `','.join`, `int()` on decimal digits, `str()` of a natural number |
| `bits.dfy` | `Bits` | powers of two, `bin(v).count('1')`, and `&`, `\|`, `^` on naturals, with the lemmas that tie them to arithmetic |
| `cidr.dfy` | `Cidr` | `netmask_to_cidr` |
| `ipv4.dfy` | `Ipv4` | the IPv4 part of `ipaddress`: address parsing and printing, `ip_network(..., strict=False)`, `str(network)`, `__contains__`, `broadcast_address`, `overlaps` |
| `ledger.dfy` | `Ledger` | the ledger line format and the two-column `read_csv` of it |
| `publisher.dfy` | `Publisher` | `get_ip_ranges` and `save_ip_ranges` |
| `report.dfy` | `Report` | the collision table, its `to_csv(index=False)` text, and a reader for that text |
| `auditor.dfy` | `Auditor` | `check_collisions` |

What the model does with the outside world:

- **Interfaces.** What `netifaces` reports is a parameter: a sequence of `Interface` values. Each holds the AF_INET entries, or `None` when the family is absent.
- **File contents.** File contents are parameters and results:
  - `SaveIpRanges` takes the ledger's current text and returns the new text.
  - `CheckCollisions` takes the ledger as `Missing` or `Present(text)`. It returns the table, and the report text if a report is written.
- **I/O failures.** These are parameters too:
  - an `IoFault`: `open` raises, or the write of line k raises;
  - `reportFails`: creating the report directory or writing the report raises.
- **Loops.** The two methods that loop in the source are imperative Dafny:
  - `get_ip_ranges` has nested loops. `Publisher.GetIpRanges` has two `while` loops.
  - `save_ip_ranges` has one write loop. `Publisher.SaveIpRanges` has one `while` loop.
  - `check_collisions` has one loop over the pairs. `Auditor.FindCollisions` has one `while` loop over `PairsOf(n)`, which models `combinations`.
- **Specifications.** Each method is proved against a specification function (`AllRanges`, `LedgerText`, `Collisions`). The lemmas beside those functions state what the source promises about them.

Some behaviours of `ip_tool.py` are easy to expect otherwise. The model keeps each one as the code has it:

- **No lock.** `save_ip_ranges` (lines 34-41) opens the ledger in append mode and writes without any lock. The tests patch a `file_lock` that `ip_tool.py` does not define. The model has no lock.
- **Save errors are swallowed.** `save_ip_ranges` catches every exception and prints it (lines 40-41), so the caller never sees it. `SaveIpRanges` returns `saved == false`, and the content keeps the lines written before the fault.
- **Bad netmasks raise.** Only an empty address or netmask is skipped (`if ip and netmask`, line 53). A netmask piece that `int()` refuses raises `ValueError` (line 60). Nothing in `get_ip_ranges` catches it (`Failure.BadNetmask`). A missing `'addr'` or `'netmask'` key raises `KeyError` (lines 51-52, `Failure.MissingKey`).
- **Overlap is reflexive.** `IPv4Network.overlaps` (line 71) is true for a network and itself (`Ipv4.OverlapsReflexive`). So the same range saved by two pods is reported as a collision (`Auditor.SameRangeCollides`).
- **Audit errors give an empty table.** `check_collisions` catches `FileNotFoundError` and every other exception, and returns an empty table (lines 92-97). It never raises.
- **Non-contiguous netmasks are counted.** `netmask_to_cidr` (line 60) counts bits without checking that the mask is contiguous. `255.0.255.0` gives 16 (`Cidr.NonContiguousExample`).

## Model

| member | source | states |
|---|---|---|
| Cidr.SumOnesDefined | ip_tool.py:60 | the bit count of the pieces is defined exactly when every piece is a decimal number |
| Cidr.FirstBadPiece | ip_tool.py:60 | the first piece `int()` refuses is the error that ends the count |
| Cidr.SumOnesAppend | ip_tool.py:60 | counting two runs of pieces: defined iff both are, and then the sum of the two counts |
| Cidr.SumOnesPermutation | ip_tool.py:60 | rearranging the pieces changes neither whether the count is defined nor its value |
| Cidr.FourOctetsAtMost32 | ip_tool.py:59-60 | four pieces each at most 255 give a defined prefix of at most 32 |
| Cidr.DottedQuadCidr | ip_tool.py:59-60 | for a dotted-quad netmask, the result is the number of one bits of its 32-bit value, at most 32 |
| Cidr.NetmaskOnes | ip_tool.py:60 | the netmask of prefix p has exactly p one bits |
| Cidr.AgreesWithIpaddress | ip_tool.py:59-60 | on a contiguous netmask, `netmask_to_cidr` gives the same prefix as `ipaddress` reads from it |
| Cidr.NetmaskTextCidr | ip_tool.py:59-60 | the printed netmask of any prefix p converts back to p |
| Cidr.ClassCExample | test_ip_tool.py:89-93 | "255.255.255.0" gives 24 |
| Cidr.NonContiguousExample | ip_tool.py:59-60 | "255.0.255.0" gives 16: bits are counted without checking that they are contiguous |
| Ipv4.ParseOctet | ip_tool.py:67 | an accepted octet is at most 255 |
| Ipv4.ParseAddress | ip_tool.py:67 | an accepted dotted quad is a 32-bit address |
| Ipv4.AddressRoundTrip | ip_tool.py:73 | printing an address and parsing the text gives the address back, and the text has no '/' |
| Ipv4.PrefixFromString | ip_tool.py:67 | an accepted prefix text gives a prefix of at most 32 |
| Ipv4.NetmaskPrefix | ip_tool.py:67 | the integer netmask of prefix p is read as prefix p |
| Ipv4.HostmaskPrefix | ip_tool.py:67 | the integer hostmask of prefix p (0 < p < 32) is read as prefix p |
| Ipv4.PrefixFromDigits | ip_tool.py:67 | a decimal prefix from 0 to 32 is accepted as itself |
| Ipv4.PrefixTooLong | ip_tool.py:67 | a decimal prefix above 32 is refused |
| Ipv4.PrefixFromNetmask | ip_tool.py:67 | a dotted netmask after '/' gives its prefix length |
| Ipv4.PrefixFromHostmask | ip_tool.py:67 | a dotted hostmask after '/' gives its prefix length |
| Ipv4.NetworkOfValue | ip_tool.py:67 | the non-strict network of an address clears the host bits, and the result is a valid network |
| Ipv4.ParseNetwork | ip_tool.py:67 | every network `ip_network(..., strict=False)` accepts is valid: the prefix is at most 32 and the host bits are clear |
| Ipv4.ParseAddressWithPrefix | ip_tool.py:67 | "a/p" parses to a with its low 32-p bits cleared, with prefix p |
| Ipv4.ParseBareAddress | ip_tool.py:67 | an address without '/' is a /32 network |
| Ipv4.SameBlockSameNetwork | ip_tool.py:67 | any address of a block, written with the block's prefix, parses to that block |
| Ipv4.NetworkRoundTrip | ip_tool.py:73 | `str(network)` parsed again gives the same network |
| Ipv4.NetworkTextPlain | ip_tool.py:85 | a printed network has no comma and no line break, so it fits in a CSV cell unquoted |
| Ipv4.LastInRange | ip_tool.py:71 | a valid network's last address is at least its first and within the 32-bit space |
| Ipv4.ContainsIffInBlock | ip_tool.py:71 | `a in network` iff a lies between the network address and the last address |
| Ipv4.BroadcastIsLast | ip_tool.py:71 | the broadcast address is the last address of the block |
| Ipv4.OverlapsIffIntersect | ip_tool.py:71 | `overlaps` holds iff the two address intervals intersect |
| Ipv4.OverlapsIffSharedAddress | ip_tool.py:71 | `overlaps` holds iff some address lies in both networks |
| Ipv4.OverlapsSymmetric | ip_tool.py:71 | `x.overlaps(y)` iff `y.overlaps(x)` |
| Ipv4.OverlapsReflexive | ip_tool.py:71 | every network overlaps itself |
| Ipv4.OverlapMeansNested | ip_tool.py:71 | when two CIDR blocks overlap, the longer-prefix block lies inside the shorter-prefix one |
| Ipv4.IntersectingOverlap | ip_tool.py:71 | intersecting blocks overlap |
| Ipv4.DisjointNoOverlap | ip_tool.py:71 | a block that ends before another starts does not overlap it |
| Ipv4.ClassCRangeExample | ip_tool.py:67 | "192.168.1.0/24" parses to the network 192.168.1.0/24 |
| Ipv4.UpperHalfRangeExample | ip_tool.py:67 | "192.168.1.128/25" parses to the network 192.168.1.128/25 |
| Ipv4.HostBitsClearedExample | ip_tool.py:67 | "10.0.0.5/24" is read as 10.0.0.0/24 |
| Ipv4.NestedOverlapExample | test_ip_tool.py:99-104 | 192.168.1.0/24 and 192.168.1.128/25 overlap |
| Ipv4.AdjacentBlocksExample | ip_tool.py:71 | 10.0.0.0/24 and 10.0.1.0/24 do not overlap |
| Text.ParseNatToString | ip_tool.py:54 | the prefix printed into a range reads back as the same number |
| Ledger.ReadLedger | ip_tool.py:65 | an empty ledger reads as an empty table, and every row read back has fields without commas or line breaks |
| Ledger.LineRoundTrip | ip_tool.py:38 | a line of two plain fields has no line break inside it and reads back as those two fields |
| Ledger.SplitLedger | ip_tool.py:36-38 | the appended text splits into exactly the written line bodies, whatever follows it |
| Ledger.ParseLinesOf | ip_tool.py:65 | the written line bodies read back as one row (owner, range) per range |
| Ledger.ParseRowsAppend | ip_tool.py:65 | reading two runs of lines gives the rows of the first, then the rows of the second |
| Ledger.LedgerRoundTrip | ip_tool.py:34-41 | a ledger created by one save reads back as one row per range, owned by the saver, in order; saving no ranges leaves an empty table |
| Ledger.AppendKeepsRows | ip_tool.py:36-38 | appending to a ledger that ends in a line break keeps its rows and adds the new rows after them |
| Ledger.BreakThenText | ip_tool.py:36 | text after a line break starts new lines: the rows of the front, then the rows of the appended text |
| Ledger.ParseRowsPlain | ip_tool.py:65 | the fields of every row read from line bodies hold no comma and no line break |
| Publisher.RangeOf | ip_tool.py:50-55 | one entry raises iff a key is missing or the netmask does not convert; otherwise it yields a range iff address and netmask are non-empty, and that range is `addr/cidr` |
| Publisher.GetIpRanges | ip_tool.py:44-56 | the nested loops compute exactly `AllRanges` of the interfaces, including the first exception raised |
| Publisher.RaiseEnds | ip_tool.py:50-52 | the first entry that raises ends `get_ip_ranges` with that exception |
| Publisher.EntryErrorSticks | ip_tool.py:50-55 | once an entry has raised, later entries do not change the outcome |
| Publisher.AllErrorSticks | ip_tool.py:47-55 | once an interface has raised, later interfaces do not change the outcome |
| Publisher.EntryRangesAppend | ip_tool.py:50-55 | walking two runs of entries is walking each run in turn; the first error wins |
| Publisher.AllRangesFlatten | ip_tool.py:47-55 | the result over interfaces equals the result over all their AF_INET entries, concatenated in order |
| Publisher.Inet4EntriesAppend | ip_tool.py:47-50 | the AF_INET entries of two runs of interfaces are those of the first, then those of the second |
| Publisher.EntryRangesMeaning | ip_tool.py:50-55 | the walk succeeds iff no entry raises; then it gives one `addr/cidr` per qualifying entry, in order |
| Publisher.GetIpRangesMeaning | ip_tool.py:44-56 | `get_ip_ranges` succeeds iff no AF_INET entry raises; then it gives one `addr/cidr` per qualifying entry, in interface and entry order |
| Publisher.NoInetNoRanges | ip_tool.py:49 | an interface without the AF_INET family contributes nothing, wherever it stands |
| Publisher.PublishedRangeParses | ip_tool.py:54 | a published range with a contiguous netmask parses as the address's network with that prefix |
| Publisher.TwoInterfacesExample | test_ip_tool.py:74-87 | eth0 with one qualifying entry of netmask /24, plus eth1 with no AF_INET, gives exactly that one range |
| Publisher.InterfacesTextExample | test_ip_tool.py:74-87 | eth0 192.168.1.1 with 255.255.255.0, plus an empty eth1, gives ["192.168.1.1/24"] |
| Publisher.Written | ip_tool.py:36-38 | under any fault, at most the given number of lines reach the file |
| Publisher.SaveIpRanges | ip_tool.py:34-41 | the file becomes the old content followed by the lines written before the fault; it reports success iff every line was written |
| Publisher.TwoLines | ip_tool.py:37-38 | two ranges give two lines, the first range's line first |
| Publisher.TwoLinesText | test_ip_tool.py:53-60 | the lines for POD_NAME with 192.168.1.1/24 and 10.0.0.1/16 are "POD_NAME,192.168.1.1/24\n" then "POD_NAME,10.0.0.1/16\n" |
| Publisher.SaveIpRangesExample | test_ip_tool.py:53-60 | saving those two ranges onto an empty file without a fault writes exactly those two lines and succeeds |
| Publisher.SaveThenRead | ip_tool.py:34-41 | after a complete save, the ledger reads back as its old rows followed by one row (owner, range) per range |
| Report.HeaderPlain | ip_tool.py:85 | the header line has no line break in it |
| Report.RecordLine | ip_tool.py:85 | a record with plain cells is one line and reads back as the record |
| Report.SplitReport | ip_tool.py:85 | the report text splits into the header line and one line per record |
| Report.ParseReportLines | ip_tool.py:85 | the record lines read back as the records, in order |
| Report.HeaderFirst | ip_tool.py:85 | the header line `network1,container1,network2,container2` comes first |
| Report.ReportRoundTrip | ip_tool.py:85 | reading a written report gives back exactly its records, in order |
| Auditor.ParseNetworks | ip_tool.py:67 | a parsed column has one entry per row, and every prefix is at most 32 |
| Auditor.AllPresentMeaning | ip_tool.py:67 | the column converts iff every row's range parses; then entry k is row k's network |
| Auditor.RowPairs | ip_tool.py:70 | the pairs starting at row i are (i, i+1) ... (i, n-1), in order |
| Auditor.AllPairs | ip_tool.py:70 | every pair before row i has its first row below i and before its second row, which is below n |
| Auditor.Hits | ip_tool.py:70-71 | the overlapping pairs are no more than the pairs compared |
| Auditor.FindCollisions | ip_tool.py:69-77 | the loop over `combinations` builds exactly the collision table `Collisions` of the entries |
| Auditor.CheckCollisions | ip_tool.py:63-97 | writes a report iff the audit found collisions and writing succeeds, and the report is their CSV text; returns the audit's table, or an empty one when writing raises |
| Auditor.AllPairsMembership | ip_tool.py:70 | (a, b) is among the pairs before row i iff a < i and a < b < n |
| Auditor.PairsMembership | ip_tool.py:70 | (a, b) is a pair of `combinations` of n rows iff a < b < n |
| Auditor.AllPairsOrdered | ip_tool.py:70 | the pairs before row i are in strictly increasing lexicographic order |
| Auditor.PairsOrdered | ip_tool.py:70 | the pairs come in strictly increasing lexicographic order, so no pair appears twice |
| Auditor.AllPairsCount | ip_tool.py:70 | there are i(2n-i-1)/2 pairs before row i |
| Auditor.PairsCount | ip_tool.py:70 | there are n(n-1)/2 pairs |
| Auditor.HitsMembership | ip_tool.py:70-72 | a pair is a hit iff it is compared and its networks overlap |
| Auditor.HitsOrdered | ip_tool.py:70-72 | filtering ordered pairs keeps them ordered |
| Auditor.ReportedPairs | ip_tool.py:70-72 | (a, b) is reported iff a < b < n and the networks of rows a and b overlap |
| Auditor.ReportedOrder | ip_tool.py:70-72 | the reported pairs are strictly ordered, and there are at most n(n-1)/2 of them |
| Auditor.CollisionsSound | ip_tool.py:70-77 | every record comes from rows a < b whose networks overlap: network and container of row a first, then of row b |
| Auditor.CollisionsComplete | ip_tool.py:70-77 | every two rows a < b whose networks overlap have their record in the table |
| Auditor.CollisionsBound | ip_tool.py:70-77 | the table has at most n(n-1)/2 records |
| Auditor.TwoRows | ip_tool.py:70-77 | two rows give one record if their networks overlap, and none otherwise |
| Auditor.NestedCollisionExample | ip_tool.py:70-77 | entries holding the networks 192.168.1.0/24 and 192.168.1.128/25 give exactly one record, the first entry's cells first |
| Auditor.AdjacentNoCollisionExample | ip_tool.py:70-77 | entries holding the networks 10.0.0.0/24 and 10.0.1.0/24 give no record |
| Auditor.MalformedRangeEmptiesAudit | ip_tool.py:95-97 | one range `ip_network` refuses makes the whole audit empty |
| Auditor.TwoSaves | ip_tool.py:38 | two pods each saving one range leave a ledger that reads as those two rows, in save order |
| Auditor.TwoRowsParse | ip_tool.py:67 | two rows whose ranges parse give two entries with those networks, containers kept |
| Auditor.TestLedgerRows | test_ip_tool.py:99-104 | the ledger where container1 saved "192.168.1.0/24" and then container2 saved "192.168.1.128/25" reads back as those two rows |
| Auditor.TestLedgerEntries | test_ip_tool.py:99-104 | those two rows parse to the networks 192.168.1.0/24 and 192.168.1.128/25 |
| Auditor.LedgerCollisionExample | test_ip_tool.py:98-111 | auditing that ledger text gives exactly one record: container1's /24, then container2's /25 |
| Auditor.CheckCollisionsExample | test_ip_tool.py:98-113 | `check_collisions` on that ledger returns one record with container1 then container2, and writes a report that reads back as that table |
| Auditor.SameRangeCollides | ip_tool.py:63-77 | two pods that each saved the same range collide, in save order |
| Auditor.ColumnPlain | ip_tool.py:67 | containers read from plain rows stay plain |
| Auditor.RecordsPlain | ip_tool.py:72-77 | records built from entries with plain containers have plain cells |
| Auditor.AuditReportReadsBack | ip_tool.py:79-85 | the report written for any ledger reads back as exactly the audit's table |

## Left out

- **IPv6.** `ip_network` also accepts IPv6 text, and `get_ip_ranges` reads only AF_INET. The model handles IPv4 only. A ledger row holding an IPv6 range is treated as a range `ip_network` refuses.
- **Lenient `int()`.** `int()` accepts surrounding whitespace, a sign, underscores and non-ASCII digits. The model accepts ASCII decimal digits only, both in `netmask_to_cidr` and in address and prefix parsing.
- **Interface enumeration.** `netifaces.interfaces()` and `netifaces.ifaddresses()` are not called. Their answers are the `ifaces` parameter.
- **Files.** `open`, `read_csv`, `os.makedirs` and `to_csv` do no I/O. File contents are parameters and results, and their failures are the `IoFault` and `reportFails` parameters.
- **Environment and paths.** The environment variables, the date in the file names, `os.path.join`, `get_and_save_ip_ranges`, `main` and `argparse` hold no logic that the model states anything about.
- **Output and locking.** `print`, logging and the advisory file lock are not modelled. The lock does not appear in `ip_tool.py`.
- Ledger.ReadLedger: stands in for `pandas.read_csv` on the two-column file. It splits on line breaks and skips blank lines, so an empty or blank file is an empty table. A line of other than two comma-separated fields is an error. It does not model:
  - quoting;
  - whitespace handling;
  - the inference of column types (numeric container ids become integers, and a missing field becomes NaN);
  - a line of one field, which pandas pads with NaN;
  - a file whose every line has three fields, for example an owner name holding a comma. pandas then uses the first field as the index and reads the table; the model refuses it.
- Report.ReportText: stands in for `to_csv(index=False)` with '\n' line ends and no quoting. The round trip is stated for cells without commas or line breaks. Every record the audit produces has such cells (`Auditor.AuditReportReadsBack`).
- Auditor.CheckCollisions: a failing report write is one flag. It does not model a partly written report file, or the directory being created before the write fails.
- Publisher.SaveIpRanges: writes are whole lines. Buffering, and a line cut off in the middle, are not modelled.
- **Concurrency.** Two publishers appending at the same time, and an audit that reads while a publisher writes, are not modelled. Each operation runs on one snapshot of the file.
