# Network traffic feature pipeline — Dafny model

This project models the two pure cores of a small network-traffic
classification repository and proves properties about them.

- **Flow keying and per-flow inter-arrival time** (`src/question_4/ques_4.py`).
  `ip_to_int` reads a dotted IPv4 address as an unsigned 32-bit big-endian value.
  An IPv4 address is four octets (section 2.3 of RFC 791).
  Each row gets a directional flow key `"<srcInt>_<dstInt>_<sport>_<dport>"`.
  The key is reduced to a `Flow ID Hash` in [0, 10^8): its SHA-256 hex digest, read as an integer, modulo 10^8.
  The `Inter-Arrival Time` column comes from `groupby('Flow ID Hash')['Timestamp'].diff().fillna(0)`.
  Also covered: the input guard, the column reads that can fail, and the two feature subsets handed to the classifiers.
- **Packet-record extraction** (`src/question_3/ques_3.py`).
  The `extract_traffic_scapy` loop filters the packets and stops at a limit.
  The captures' record lists are concatenated in dictionary order.
  Two table computations feed the charts: the TLS destination-port subset, and the per-application sorted timestamp differences.

Modules, one per file:

| file | module | what it holds |
|---|---|---|
| results.dfy | `Results` | `Option`, and `Result` with `:-` support |
| seqs.dfy | `Seqs` | order-preserving filter, subsequence, sort, consecutive differences |
| decimal.dfy | `Decimal` | `str(n)` for naturals and its inverse on canonical digit strings |
| text.dfy | `Text` | `str.split(sep)` and joining, with both round trips |
| ipv4.dfy | `Ipv4` | `ip_to_int` |
| flow_keys.dfy | `FlowKeys` | flow key string, its parser, the hash-to-identifier step |
| inter_arrival.dfy | `InterArrival` | the grouped inter-arrival column: reference definition, one-pass method, lemmas |
| flow_features.dfy | `FlowFeatures` | ques_4 lines 24-50 as one function from the loaded table to the prepared features |
| packet_capture.dfy | `PacketCapture` | the extraction loop and the per-capture concatenation |
| traffic_reports.dfy | `TrafficReports` | TLS subset and per-app inter-arrival series |

Modelling choices:

- **Timestamps** are `int`, for example microseconds, so differences are exact.
- **SHA-256** is a parameter `sha256: string -> HexDigest`, standing for `hashlib.sha256(key.encode()).hexdigest()`.
  `HexDigest` is any string of 64 lower-case hex digits.
  The model reads the digest as a number, as `int(h, 16)` does, and reduces it modulo 10^8.
- **Packets** are abstract values: an optional IP layer, an optional TCP layer, and a `malformed` marker.
  The marker means processing the packet raises inside the loop's `try`.
- **Capture files** are `NotFound`, `Unreadable`, or `Readable(packets)`. These stand for `os.path.exists` and `rdpcap`.
- **Script exits and uncaught exceptions** are `Err` values: the guard's `exit()`, a `KeyError` on a missing column, and the `OSError` of `inet_aton`.

Behaviour of the scripts that a reader may not expect, which the model keeps:

- The inter-arrival column is computed in **table order within each group, without sorting by timestamp**.
  Out-of-order timestamps therefore give negative values.
- Rows are grouped by the **hash**, not by the key string. Two flows whose identifiers collide modulo 10^8 share one group.
- An address that `inet_aton` rejects **aborts the whole script**, because the exception raised inside `Series.apply` is not caught.
  It does not exclude just that record. `Prepare` returns `Err(AddressRejected(IllegalAddress(ip)))` for the first such address.
  Source addresses are all converted before any destination address.
- The extraction loop keeps **only TCP packets**. Packets that have IP but no TCP, such as UDP, produce nothing.
- With `limit <= 0` the loop does not always return an empty list. It stops at the first packet that does not raise, and keeps that packet's record if the packet has IP and TCP. If that packet is not IP+TCP (a UDP packet, say), the result is empty.

## Model

| member | source | states |
|---|---|---|
| `Ipv4.IpToInt` | src/question_4/ques_4.py:12-13 | the result is an unsigned 32-bit value (below 2^32) or the illegal-address error naming the input |
| `Ipv4.IpToIntOfDottedQuad` | src/question_4/ques_4.py:12-13 | `ip_to_int("a.b.c.d") == a*2^24 + b*2^16 + c*2^8 + d` for octets 0..255 written in decimal |
| `Ipv4.IpToIntCanonical` | src/question_4/ques_4.py:12-13 | an accepted string is exactly the dotted-quad text of its value |
| `Ipv4.IpToIntSurjective` | src/question_4/ques_4.py:12-13 | every 32-bit value is the result for its dotted-quad text |
| `Ipv4.IpToIntInjective` | src/question_4/ques_4.py:12-13 | two accepted strings have equal values if and only if they are the same string |
| `Ipv4.IpToIntErrorIff` | src/question_4/ques_4.py:13 | a string is rejected if and only if it is not the dotted quad of any 32-bit value |
| `Ipv4.OctetsDecompose` | src/question_4/ques_4.py:13 | packing four octets stays below 2^32, and unpacking the value gives the same four octets back |
| `Decimal.NatToString` | src/question_4/ques_4.py:34 | `astype(str)` of a natural number gives a non-empty digit string, with no leading zero, whose value is the number |
| `Decimal.ParseNat` | src/question_4/ques_4.py:34 | a string parses if and only if it is canonical decimal text, and then it is the text of the parsed number |
| `Decimal.NatToStringInjective` | src/question_4/ques_4.py:34 | different numbers have different decimal texts |
| `FlowKeys.FlowKey` | src/question_4/ques_4.py:34 | splitting the flow key on `_` and reading the four parts gives back the (srcInt, dstInt, sport, dport) tuple |
| `FlowKeys.ParseFlowKeyCanonical` | src/question_4/ques_4.py:34 | every string that parses as a key is the key of the tuple it parses to |
| `FlowKeys.FlowKeyInjective` | src/question_4/ques_4.py:34 | two tuples have the same key if and only if they are equal |
| `FlowKeys.FlowKeyDirectional` | src/question_4/ques_4.py:34 | swapping both addresses and both ports keeps the key if and only if the two addresses are equal and the two ports are equal |
| `FlowKeys.HexValue` | src/question_4/ques_4.py:37 | `int(h, 16)` of n hex digits is below 16^n |
| `FlowKeys.FlowIdHash` | src/question_4/ques_4.py:37 | the identifier lies in [0, 10^8) |
| `FlowKeys.FlowIdDeterministic` | src/question_4/ques_4.py:37 | equal keys give equal identifiers |
| `InterArrival.LastIndexOf` | src/question_4/ques_4.py:40 | the result is the latest row with the given identifier; it is absent if and only if no row has that identifier |
| `InterArrival.Column` | src/question_4/ques_4.py:40 | the column has one value per row |
| `InterArrival.ComputeColumn` | src/question_4/ques_4.py:40 | the one-pass computation gives 0 to a row whose identifier has not occurred earlier; any other row gets its timestamp minus that of the latest earlier row with its identifier |
| `InterArrival.ColumnIsGroupwiseDiff` | src/question_4/ques_4.py:40 | the column restricted to any one identifier equals that identifier's timestamps, in table order, differenced with a leading 0 (split, diff, fill, combine) |
| `InterArrival.SelectLast` | src/question_4/ques_4.py:40 | a group's rows so far are empty if and only if no earlier row has the identifier; otherwise the last of them is the latest such row's timestamp |
| `InterArrival.ColumnNonNegative` | src/question_4/ques_4.py:40 | if each identifier's timestamps do not decrease in table order, every value is at least 0 |
| `InterArrival.ColumnPrefixStable` | src/question_4/ques_4.py:40 | appending rows does not change the values of the rows above |
| `InterArrival.ColumnInsertOther` | src/question_4/ques_4.py:40 | inserting a row leaves unchanged every row of a different identifier (rows below move down one place) |
| `FlowFeatures.TwoPacketFlowExample` | src/question_4/ques_4.py:40 | two rows of one flow at 10.0 s and 10.25 s get 0 and 0.25 s |
| `FlowFeatures.ConvertAll` | src/question_4/ques_4.py:30-31 | a converted column has one value per address; a failure is always an illegal-address error |
| `FlowFeatures.ConvertAllOk` | src/question_4/ques_4.py:30-31 | the column converts if and only if every address converts, and then each value is that address's `ip_to_int` |
| `FlowFeatures.ConvertAllFirstError` | src/question_4/ques_4.py:30-31 | a failed conversion reports the first address that `ip_to_int` rejects; every address before it converts |
| `FlowFeatures.Enrich` | src/question_4/ques_4.py:34-40 | each row keeps its size and timestamp; its identifier is the hash of its flow key; its gap is measured to the latest earlier row with the same identifier |
| `FlowFeatures.SameTupleSameGroup` | src/question_4/ques_4.py:30-37 | for the canonical dotted-quad spellings the model accepts, two rows have the same flow key if and only if their address strings and ports are equal, and rows with the same key share an identifier. `inet_aton` also reads other spellings (`10.0.0.01`, `167772161`) as the same address, so in the script different strings of one address share a key |
| `FlowFeatures.Prepare` | src/question_4/ques_4.py:24-50 | a successful run gives one enriched row, one row of each feature set and one label per input row |
| `FlowFeatures.PrepareGuard` | src/question_4/ques_4.py:25-27 | the guard's exit happens if and only if there are no rows or `Size` or `Timestamp` is missing |
| `FlowFeatures.PrepareOkIff` | src/question_4/ques_4.py:24-50 | preparation succeeds if and only if the guard passes, every column read exists, and every address of both address columns converts |
| `FlowFeatures.PrepareErrors` | src/question_4/ques_4.py:30-50 | any other failure names a column the script reads and the table lacks, or an address of one of the two address columns that `ip_to_int` rejects |
| `FlowFeatures.PrepareOutput` | src/question_4/ques_4.py:30-50 | on success both address columns converted, the rows are enriched from them, the two feature sets are projected from those rows, and the labels are the `Classification` column in row order |
| `FlowFeatures.Project` | src/question_4/ques_4.py:44-47 | a column selection keeps every row in order; cell (i, k) is row i's value of the k-th selected column |
| `FlowFeatures.Case2DropsFlowId` | src/question_4/ques_4.py:44-47 | feature set 2 is feature set 1 with exactly the `Flow ID Hash` column removed, row for row |
| `PacketCapture.AcceptedRecords` | src/question_3/ques_3.py:42-52 | the unbounded reference has at most one record per packet |
| `PacketCapture.LoopTakesAccepted` | src/question_3/ques_3.py:39-58 | from a state holding fewer than `limit` records, the loop returns those records followed by the accepted records, cut at `limit` |
| `PacketCapture.ExtractIsAcceptedPrefix` | src/question_3/ques_3.py:39-58 | with `limit >= 1`, a readable capture yields exactly the first `min(limit, #accepted)` records of IP+TCP packets that do not raise, in packet order |
| `PacketCapture.ExtractNonPositiveLimit` | src/question_3/ques_3.py:53-54 | with `limit <= 0`, the output is the record of the first packet that does not raise, if that packet has IP and TCP, and empty otherwise |
| `PacketCapture.ExtractBound` | src/question_3/ques_3.py:53-54 | the output has at most `max(limit, 1)` records |
| `PacketCapture.ExtractProvenance` | src/question_3/ques_3.py:29-52 | every record comes from a readable capture and is the 8-field record of one of its IP+TCP packets that did not raise; its last field is `app_name`. A missing or unreadable capture yields nothing |
| `PacketCapture.AcceptedRecordsProvenance` | src/question_3/ques_3.py:42-52 | every reference record is the record of an accepted packet of the input, tagged with the app |
| `PacketCapture.NoTcpNoRecords` | src/question_3/ques_3.py:42 | a capture with no TCP packet (for example UDP only) yields nothing |
| `PacketCapture.FirstWellFormed` | src/question_3/ques_3.py:41-56 | the packet found is the first packet of the capture whose processing does not raise; none is found if and only if every packet raises |
| `PacketCapture.MalformedSkipped` | src/question_3/ques_3.py:55-56 | inserting a packet that raises anywhere in the capture changes neither the records nor where the loop stops |
| `PacketCapture.CollectConcat` | src/question_3/ques_3.py:62-64 | collecting two lists of captures in sequence equals collecting their concatenation, so each capture's records stay contiguous and in dictionary order |
| `PacketCapture.CollectBound` | src/question_3/ques_3.py:62-64 | the combined table holds at most the default limit of records per capture |
| `PacketCapture.CollectEmptyIff` | src/question_3/ques_3.py:62-64 | the combined table is empty if and only if every capture yields nothing |
| `PacketCapture.BuildTable` | src/question_3/ques_3.py:62-72 | the script exits if and only if every capture yields nothing; otherwise the table is the non-empty concatenation |
| `TrafficReports.TlsSubset` | src/question_3/ques_3.py:106-107 | the TLS subset is a subsequence of the table. A row occurs in it as often as in the table when its destination port is 443, 993, 465, 587 or 8443, and not at all otherwise |
| `TrafficReports.TlsSubsetConcat` | src/question_3/ques_3.py:106-107 | the TLS subset of a concatenation is the concatenation of the TLS subsets |
| `TrafficReports.Unique` | src/question_3/ques_3.py:94 | `unique()` holds each value of the column exactly once and nothing else, in order of first appearance |
| `TrafficReports.AppInterArrival` | src/question_3/ques_3.py:95-96 | an app with n rows gets n-1 values (0 when n = 0), none negative |
| `TrafficReports.AppInterArrivalSpan` | src/question_3/ques_3.py:95-96 | an app's values add up to its latest timestamp minus its earliest |
| `TrafficReports.InterArrivalSeries` | src/question_3/ques_3.py:94-96 | there is one series per distinct app of the table, in order of the app's first appearance; each series is that app's sorted, differenced timestamps (so none is negative) and has one value fewer than the app's rows |
| `TrafficReports.InterArrivalSeriesCovers` | src/question_3/ques_3.py:94-96 | every app of the table gets a series |
| `Seqs.Sort` | src/question_3/ques_3.py:95 | `sort_values` returns a sorted permutation of the timestamps |
| `Seqs.ConsecutiveDiffs` | src/question_3/ques_3.py:96 | `diff().dropna()` has one value fewer than its input, and each value added to its element gives the next element |

## Left out

- Reading `combined_dataset.csv` and its `FileNotFoundError` exit (ques_4 lines 16-22) are file I/O. The model starts from the loaded table, with its header as a set of column names and its rows as typed records.
- Writing the CSV (ques_3 lines 152-154) and all matplotlib/seaborn plotting are out of scope. This includes the group-by counts that exist only for charts (ques_3 lines 76, 109, 125, 134, 145).
- The classifier stage (ques_4 lines 52-82) is out of scope: `train_test_split`, `StandardScaler`, `RandomForestClassifier` and `accuracy_score` are opaque library behaviour over floating point. The model stops at the two feature matrices and the label column.
- scapy's `rdpcap` and layer dissection are a foreign library. Packets are abstract values, and "processing raises" is the `malformed` marker.
- The SHA-256 algorithm is a parameter of the model, not an implementation.
- `Ipv4.IpToInt`: does not accept the lenient `inet_aton` forms (fewer than four parts, hex or octal parts, trailing whitespace). Components with a leading zero are rejected, because `inet_aton` would read them as octal.
- Timestamps are integers, not floats; floating-point rounding of differences is not modelled.
- Ports are naturals; a port column read as floats (when it has missing values, so `astype(str)` would give `"443.0"`) is not modelled.
- Cells are never missing: every row has a value in every column the script reads. In the script a missing (NaN) cell behaves differently. A NaN `Source IP` or `Dest IP` makes `inet_aton` raise `TypeError`, and the script aborts (ques_4 lines 30-31). A NaN `Timestamp` makes `groupby(...).diff()` give NaN for that row and for the next row of its group, and `fillna(0)` turns both into 0 (ques_4 line 40). `InterArrival.Column` cannot express that case.
- The `print` diagnostics of skipped captures and packets are not modelled.
