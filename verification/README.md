# Verification of tcpdog

tcpdog generates an eBPF program from a list of configured fields, reads the binary records that the program submits, prints
each as one line of JSON, and hands the lines to egresses (csv, jsonl, kafka, gRPC). A server turns them into database rows and
points. The stages know about each other only through tables and byte counts: struct members are laid out by a C compiler and
found again by a running cursor, values are cut out of the printed text by position, counters are kept by hand. This project
models those stages in Dafny and proves that they fit together, for all field lists, all values and all runs.

| file | what it models |
|---|---|
| `text.dfy`, `buffer.dfy`, `arith.dfy` | decimal text, `strconv`, positional reading, `bytes.Buffer`; arithmetic facts |
| `fields.dfy`, `names.dfy` | the table of fields and facts about its names |
| `decoder.dfy`, `layout.dfy` | the binary decoder; the struct layout (section 3.1.2 of the System V AMD64 psABI) as its independent reference |
| `structpb.dfy`, `float64.dfy`, `relay.dfy` | the positional parser, float64 rounding (section 4.3.1 of IEEE 754-2019), both ends together |
| `egress.dfy`, `json.dfy`, `jsonstring.dfy`, `utf8.dfy` | csv and jsonl rows; the text as JSON (RFC 8259) in UTF-8 (RFC 3629) and the kafka host name |
| `messages.dfy` | the protobuf message that protojson reads from the printed record; one record in its three serialisations |
| `filters.dfy`, `atoms.dfy`, `aswritten.dfy` | filter rewriting on C tokens, what a filter says of a record, filters as the user wrote them |
| `expressions.dfy` | what the text of an initialiser is worth: brackets, members behind pointers, the user's math |
| `program.dfy`, `cgen.dfy`, `globals.dfy` | the generated program as statements, the members, pointers and global names it declares |
| `counter.dfy`, `sampling.dfy`, `chain.dfy` | the sampling hash, runs of the program over event traces, from a kernel event to the printed value |
| `agent.dfy`, `backoff.dfy`, `grpc.dfy`, `kafka.dfy` | pooled buffers among workers and consumers, the retry delay, the reconnecting sender, the kafka JSON loop |
| `ingest.dfy`, `rows.dfy`, `influx.dfy` | the ClickHouse batch loop and row builders, the InfluxDB point makers |
| `config.dfy`, `wiring.dfy` | validation of field lists; which list a record is read with at a shared egress |

`dafny verify dfyconfig.toml` checks everything.

## What was found

Each of these is a theorem here, with the exact condition under which the code does what it is for.

- A printed record is read back by position exactly when no task name holds a comma, every number fits int64 and the time prints
  with ten bytes (or is 0): `StructPB.ParseInvertsPrint`, `Relay.EndToEnd`. A csv or jsonl row is the list of values and the
  time exactly when no value holds a comma and the time prints with ten bytes (`Egress.RowIsTheValues`); with no field at all
  the header has one column too many (`Egress.HeaderMatchesRows`). As JSON the record is right exactly when every string is
  UTF-8 and none needs an escape (`Json.RecordIsJson`), which is a different condition: a comma is harmless there, a quote is
  not. A task name that the kernel cut within a character of several bytes is plain for the positional parser, yet neither
  serialisation brings it to the server (`Relay.CutTaskName`).
- As a plain protobuf message the record arrives exactly when every string is UTF-8 without escapes and neither `NewState` nor
  `OldState` was asked for (`Messages.PlainMessageArrives`): the message has no such fields, protojson stops at the first of
  them, its error is dropped, and every field printed after it is lost, the time included (`Messages.StateFieldCuts`). Commas
  and numbers beyond int64 do no harm there.
- An initialiser stores the user's math on the table's math on the kernel's value exactly when the brackets in the user's math
  match (`Program.InitStores`, `Program.PassesFillRecord`). For the process id, the task's name and, under IPv6, the two
  addresses, configured math is accepted and ignored (`CGen.MathIsIgnored`).
- The two ports are shown with their bytes swapped. That is right for the remote port, which the kernel keeps in network order,
  and wrong for the local one: 443 is shown as 47873 (`Chain.NumberIsShown`, `Chain.LocalPortIsSwapped`). A filter or the user's
  math sees the number as stored.
- A filter keeps its meaning exactly when the field's name occurs in it only as a whole word, and a task's name not at all
  (`AsWritten.FilterKeepsMeaning`): a filter of the field `RTT` that also mentions `SRTT` does not. From the user's own spelling
  of the name, which validation replaces first, it is kept exactly when the respelled filter meets that condition
  (`AsWritten.SpellingKeepsMeaning`). A list asking twice for the task's name declares a struct member twice
  (`CGen.RequestedFieldsAreGood`).
- The program for all tracepoints declares a name twice exactly when, in one address family, two tracepoints that ask for fields
  are sampled, since the hash's name carries no number (`Globals.NamesClash`).
- Sampling reports exactly floor(k / (Sample + 1)) of a socket's events, k being those offered and not refused by a full hash
  (`Sampling.SamplingRate`).
- While nothing arrives, the ClickHouse loop leaves one transaction begun but neither committed nor rolled back every max(1,
  300/FlushInterval - 1) ticks (`Ingest.IdleTransactionsPileUp`); none of them ever holds a row (`Ingest.RowsAreConserved`).
- Once the retry delay has stopped growing, its thirty minutes are no longer restarted by further calls, so it starts over
  thirty minutes after the last growth however often it was used in between (`Backoffs.GrownForgets`).
- The row builders differ when the geo answer repeats a key of the record (JSON prefers the answer, the others the record), when
  a requested field is missing, or beyond 53 bits (`Rows.JsonRowAgrees`, `Rows.PbRowAgrees`); and a record without the geo field
  makes the plain-message path ask geo about `<invalid Value>` (`Rows.GeoAnswers`). An InfluxDB point depends on Go's map order
  exactly when a geo tag contradicts a tag of the record (`Influx.OrderDoesNotMatter`).
- Records of tracepoints that share an egress are all read right exactly when these print the same list of fields
  (`Wiring.SharedEgressNeedsOneList`). Rows of csv and jsonl depend on the lengths of the names alone
  (`Wiring.SharedFileNeedsWidths`), so a foreign list can go unnoticed there, under the wrong header
  (`Wiring.OnlyTheSameListLabels`).

Where the code and its own words differ, the code is followed: the decoder's `TODO padding` for task names calls for nothing,
since a character array needs no alignment (`Layout.DecodeFollowsLayout`); and a sampling setting of n reports one event in n +
1 (`Sampling.SamplingRate`).

## Conventions

A `char` of a text stands for one byte. Failures that end the process are values: `Fatal` for `log.Fatal`, `Panic` for a Go
run-time panic. Library code is a parameter: `ip6` is `net.IP.String` on sixteen bytes (assumed free of commas where that
matters), `kernel` and `raw` are what kernel memory holds at a path of members behind a pointer, `arith` evaluates C operands
and operators without brackets, `holds` a condition from its tokens, with struct members replaced by their values, `toLower` is
`strings.ToLower`, clocks and the outcomes of network and database calls are scripts. A loop that waits for channels takes a
script of what they deliver and stops at its end, so that every finite part of every run is covered.

## Model

| member | source | states |
|---|---|---|
| Text.AtoiInvertsFormatUint | egress/helper/helper.go:83-86 | parsing a printed number gives it back exactly when it fits int64, and fails otherwise |
| Text.FormatUintLength | ebpf/decoder.go:138 | a number prints with at most k digits exactly when it is below 10^k |
| Buffers.Buffer.Next | egress/helper/helper.go:68 | what is taken and what is left make up what there was; fewer than n bytes are taken only at the end |
| Buffers.Buffer.ReadBytes | egress/helper/helper.go:71-74 | what is taken and what is left make up what there was; the delimiter is the last byte taken and no other, or there is none and all is taken |
| Float64.RelativeError | egress/helper/helper.go:88 | converting n to float64 is off by at most n * 2^-53 |
| Float64.ExactUpTo53Bits | egress/helper/helper.go:88 | integers up to 2^53 in absolute value survive float64 |
| Float64.NotExactBeyond | egress/helper/helper.go:88 | 2^53 + 1 is the first that does not: it becomes 2^53 |
| Decoding.Trim | ebpf/decoder.go:163-170 | returns the longest beginning without a NUL |
| Decoding.DottedDecimalIsRead | ebpf/decoder.go:81-85 | what is printed of four bytes is four digit strings joined by dots, in which one reads those bytes, first to last |
| Decoding.CommTextIsPrefix | ebpf/decoder.go:119-127 | what is shown of a character array is its bytes, one by one, up to the first NUL |
| Decoding.Decoder.DecodeField | ebpf/decoder.go:55-131 | reads one field at the aligned cursor and prints its value and a comma, or panics, as the slot reading specifies, and moves the cursor; `Layout` and the two lemmas above say what is read and printed |
| Decoding.Decoder.DecodeMembers | ebpf/decoder.go:43-132 | the loop prints the members of all values read, or stops where reading fails |
| Decoding.Decoder.Decode | ebpf/decoder.go:36-140 | appends exactly the record text of the values read and the time, or fails exactly as reading does |
| Layout.RoundUpIsLeast | ebpf/template.go:46-54 | member offsets are the least aligned ones not before the previous end |
| Layout.MemberPlaces | ebpf/template.go:46-54 | a member of 1, 2, 4, 8 or 16 bytes begins at the first multiple of its size from the previous end on, a character array right there |
| Layout.AsReadMeaning | ebpf/decoder.go:142-161 | a stored number is read back as it is, or with its two bytes swapped if the field is big-endian: then the same exactly when they are equal |
| Layout.MembersAreDisjoint | ebpf/template.go:46-54 | struct members lie in order without overlap |
| Layout.ReadSlotFollowsLayout | ebpf/decoder.go:55-131 | with uint16 wrap-around ruled out, reading at the cursor is reading at the laid-out offset, failing exactly when the data are too short |
| Layout.DecodeFollowsLayout | ebpf/decoder.go:39-132 | for every field list that ends within uint16: decoding succeeds exactly when the data reach the last member, and each value is what its member holds; padding and trailing bytes do not matter |
| Layout.UnknownIsNotDecoded | ebpf/decoder.go:129-131 | a list with a name that the table lacks is never decoded; the name itself is a fatal error |
| Layout.DecodeInvertsLayout | ebpf/decoder.go:36-140 | decoding any image of a struct shows exactly the slots that the program filled; numbers are stored lowest byte first and shown in the table's byte order |
| Layout.SlotsHaveImage | ebpf/template.go:46-54 | every list of fitting slots has such an image, for any padding |
| StructPB.Parser.Unmarshal | egress/helper/helper.go:62-107 | the positional parser returns what its specification cuts out of the buffer, or its fatal error or panic |
| StructPB.ParsePlainField | egress/helper/helper.go:67-91 | a printed value without a comma, within int64, is read back and the reader stands at the next member |
| StructPB.ParseOtherField | egress/helper/helper.go:67-91 | any other value is never read back right |
| StructPB.CommaCutsString | egress/helper/helper.go:76-81 | a string that begins with a comma is a panic; any other with a comma is read without its comma, all after it and the byte before, and reading goes on in the middle of it |
| StructPB.MissingCommaIsFatal | egress/helper/helper.go:71-74 | a text that ends before the field's comma is a fatal error |
| StructPB.TimeIsReadBack | egress/helper/helper.go:94-104 | the time is read back exactly when it prints with ten bytes or is 0 |
| StructPB.ParseInvertsPrint | egress/helper/helper.go:62-107 | for every list of distinct names and all values: parsing the printed record gives the intended map if and only if all values are plain and the time has ten bytes |
| Relay.TablesAreConsistent | ebpf/data.go:377-391 | for both tables, the printer quotes a field exactly when the parser's list says it is a string; the big-endian numbers are the two ports; no field is called Hostname or Timestamp |
| Relay.DistinctListsFit | ebpf/decoder.go:17 | a list of distinct fields never makes the uint16 cursor wrap |
| Relay.EndToEnd | ebpf/decoder.go:36-140 | kernel struct to parsed map for both families, numbers stored in the machine's byte order: the shown values are read back if and only if no task name has a comma, numbers fit int64 and the time has ten bytes |
| Relay.IntendedByName | egress/helper/helper.go:75-104 | the intended map holds each value under its own name |
| Relay.RelayRecord | egress/helper/helper.go:62-107 | running the decoder and then the parser on one buffer has the end-to-end property |
| Relay.TwoReadersAgree | egress/kafka/kafka.go:80-102 | a plain record reaches the server through kafka's JSON as the intended map if and only if every string is UTF-8 and needs no escape; as a struct message if and only if every string is UTF-8 |
| Messages.PlainBringsIntended | egress/kafka/kafka.go:113-116 | for any message type with a 64-bit time and all distinct names: the message that arrives is the intended one if and only if every string is UTF-8 without escapes, the host name is UTF-8, and the message has a field for every value |
| Messages.PlainMessageArrives | proto/tcpdog.proto:16-78 | for the program's own message and everything its decoder can print: if and only if, besides, neither state field is in the record |
| Messages.StateFieldCuts | egress/kafka/kafka.go:113-116 | with a state field in the list, what arrives is the fields before it and the host name; the time is lost |
| Messages.ShownIsInRange | ebpf/decoder.go:36-140 | whatever the struct's members hold, the values printed have the types and ranges that this relies on |
| Messages.ThreeReadersAgree | egress/kafka/kafka.go:80-147 | for a plain record and time: the conditions under which the JSON, the struct message and the plain message arrive; the plain message's numbers through float64 are the map of the other two, and it conforms to the message type |
| Messages.RecordRows | ingestion/clickhouse/clickhouse.go:161-246 | for such a record without state fields and any of its fields asked for: every row has one cell for each, in order, with the text printed under that name or its number in the column's type (through float64, or exact in the plain row), the host name and the time; JSON and struct rows are equal, and the plain row is equal to them if and only if every number asked for is exact in float64 |
| Relay.CutTaskName | ebpf/decoder.go:119-127 | a task name cut within a UTF-8 character is read back by position, yet arrives neither as JSON nor as a struct message |
| Egress.RowWriter.MarshalCsv | egress/csv/csv.go:42-53 | appends the csv row cut out of the buffer |
| Egress.RowWriter.MarshalJsonl | egress/jsonl/jsonl.go:42-56 | for every buffer whatsoever, appends the csv row in brackets |
| Egress.RowWriter.ConsumeCsv | egress/csv/csv.go:89-100 | adds one line to the file and leaves the row buffer empty |
| Egress.RowIsTheValues | egress/csv/csv.go:42-53 | for all values and times: the row of a printed record is its values and time if and only if no value has a comma and the time has ten bytes |
| Egress.HeaderMatchesRows | egress/csv/csv.go:55-58 | cut at commas, a row is the values and the time, and the header their names, except that without any field the header has one column too many |
| Egress.RowWriter.HeaderCsv | egress/csv/csv.go:55-58 | what is written, cut at its commas, is the names and then the time's column |
| Json.RecordIsJson | ebpf/decoder.go:36-140 | for strict and lenient readers, the printed record is a JSON object with exactly the intended members if and only if every string is UTF-8 and none needs an escape |
| JsonStrings.ReadClean | ebpf/decoder.go:119-127 | a string in UTF-8 without bytes that need an escape is read as itself |
| JsonStrings.ReadOther | ebpf/decoder.go:119-127 | any other string, printed raw between quotes, is never read as itself, whatever follows it |
| Json.HostnameIsAMember | egress/kafka/kafka.go:180-192 | the result reads as the same object with the host name added, if and only if the same holds of its strings and the host name |
| Filters.ReplaceSplits | ebpf/fields.go:111-117 | replacing a word never matches across a token boundary |
| Filters.ReplaceRenames | ebpf/fields.go:111-117 | the rewritten filter has exactly the intended tokens if and only if the name occurs only as a whole token |
| Filters.ReplaceSame | tcpdog/helper.go:55 | replacing a name by itself changes nothing |
| Atoms.FilterReads | ebpf/fields.go:111-117 | on any record, the rewritten filter reads as the original with the field's name bound to the member's value, if and only if the name occurs only as a whole word and its member is there |
| Atoms.RespellingRenames | tcpdog/helper.go:49-56 | validation changes exactly the words that are the user's spelling if and only if no other word contains it, and nothing if the spelling is the table's |
| AsWritten.FilterKeepsMeaning | ebpf/fields.go:64-117 | for every list of table fields: the generated condition means what the filter says, the field's name standing for its value after all math, if and only if the filter is clear |
| AsWritten.SpellingKeepsMeaning | tcpdog/helper.go:43-58 | the same from the user's own spelling of the name, which validation replaces first, for every filter: if and only if the respelled filter is clear |
| AsWritten.Validate | tcpdog/helper.go:43-58 | after a successful validation of any template, for either family and every entry with an ASCII name: only the case of the name has changed, the math has not, and the generated condition reads as the user's own filter did, if and only if the respelled filter is clear |
| AsWritten.SubmissionAsWritten | ebpf/template.go:76-207 | in any run an event is submitted if and only if, at the set-state tracepoint, its protocol is TCP and the configured state is TCP_ALL or its new state, at any tracepoint its family is 2 (IPv4) or 10 (IPv6) as the list's and the list is not empty, no filter holds as written, and sampling lets its socket through |
| Counter.StepIsTidy | ebpf/template.go:127-143 | a step keeps the hash within 100000 entries and its counts in 1..Sample |
| Counter.CountingConserves | ebpf/template.go:127-143 | every occurrence of a socket is in a passage, in its count, or refused by a full hash |
| Counter.Rate | ebpf/template.go:127-143 | in every run a socket passes exactly floor(k/(Sample+1)) times, k being how often it came up and was not refused by a full hash; none is refused if at most 100000 sockets come up |
| Program.GetReqFields | ebpf/fields.go:64-102 | field i carries the table's attributes, the user's math, and the filter with its name replaced by data4 or data6, a dot, its C name and the index i |
| Program.IndexedNamesAreInjective | ebpf/template.go:51 | a C field name not ending in a digit and an index are told apart again from their concatenation |
| Program.MembersAreDistinct | ebpf/template.go:46-54 | no struct member is declared twice if and only if at most one is the task's name |
| Program.FilterTargetIsDeclared | ebpf/template.go:119-125 | a rewritten filter names a declared member if and only if its field is not the task's name |
| Expressions.InitialiserIsWorth | ebpf/template.go:20-38 | for any path and math: the text of an initialiser is worth the user's math on the table's math, in its brackets, on what memory holds at the path, if and only if the brackets in the user's math match; else it is no expression |
| Program.InitTextIsWorth | ebpf/template.go:20-38 | so is that of every field read from memory, its path being the source and the member with the arrow or the dot between |
| Program.InitStores | ebpf/template.go:37 | the assignment stores what the field should hold, reduced to the member's size, if and only if the brackets of the user's math match |
| Program.PassesFillRecord | ebpf/template.go:104-117 | the two passes together assign every member once, in any order of fields, each with what its field should hold, if and only if the brackets of all math that is used match |
| Program.BlockMeaning | ebpf/template.go:103-149 | a block submits the full record unless some filter holds of it or sampling holds it back |
| Sampling.Probe.Handle | ebpf/template.go:76-207 | written out on the event: which block runs, if any, and that it runs as its statements say; otherwise nothing changes |
| Sampling.OnEventMeaning | ebpf/template.go:76-207 | seen from one family, an event has an effect only if, at the set-state tracepoint, its protocol is TCP and its new state the wanted one, its family is this one, there are fields and no filter holds; then the sampling counter alone decides |
| Sampling.OfferedExactly | ebpf/template.go:79-155 | those are the events that count as offered in what follows |
| Sampling.SubmissionMeaning | ebpf/template.go:76-207 | in any run, an event is submitted if and only if it meets these conditions and the counter lets its socket through, and then the full record is |
| Sampling.ProgramIsCounter | ebpf/template.go:127-146 | over any trace the program refines the sampling counter fed with the sockets of offered events |
| Sampling.SamplingRate | ebpf/template.go:127-146 | for every run, any interleaving of sockets and both families, exactly floor(k / (Sample + 1)) of a socket's events are submitted, k being those offered and not refused; none is refused while at most 100000 sockets are offered; Sample = 0 is the same formula |
| Sampling.HashStaysTidy | ebpf/template.go:184-198 | after any run the hash has at most 100000 entries, counts between 1 and Sample, of offered sockets only |
| CGen.TableIsGenerable | ebpf/data.go:11-348 | every entry of both tables has what the generator relies on |
| CGen.RequestedFieldsAreGood | ebpf/fields.go:64-102 | a list of table fields yields clash-free members if and only if it asks for the task's name at most once |
| CGen.FilterIsRewritten | ebpf/fields.go:77 | for every table field and index, the filter is rewritten token for token if and only if no other word contains the name |
| CGen.TracepointTemplate.Init | ebpf/cgen.go:25-34 | each flag is set exactly when some field's source mentions its pointer |
| CGen.PointersAreDeclared | ebpf/template.go:89-96 | every pointer that the text of an emitted initialiser goes through is one that the generated function declares, if and only if those in the user's math are |
| CGen.MathIsIgnored | ebpf/template.go:104-182 | what is emitted for a field of the table does not depend on the user's math, exactly for the process id, the task's name and, under IPv6, the addresses |
| CGen.MathMatters | ebpf/template.go:20-38 | for every other field some math changes what is stored |
| Globals.GetBPFCode | ebpf/cgen.go:42-56 | the loop declares the names of all tracepoints in order, each tracepoint numbered by its place |
| Globals.DeclaredExactly | ebpf/template.go:40-76 | a name is declared if and only if it is a tracepoint's function, the struct or perf output of one of its families with fields, under its number, or the hash of a family that has fields and is sampled |
| Globals.NamesClash | ebpf/template.go:40-76 | of the hashes, structs, perf outputs and functions of any list of tracepoints, no name is declared twice if and only if each family has at most one sampled tracepoint with fields |
| Chain.NumberIsShown | ebpf/template.go:20-38 | every number of the table is shown as stored (the C expression's value reduced to the member's size), except the two ports, shown with their bytes swapped |
| Chain.LocalPortIsSwapped | ebpf/data.go:130-137 | the local port 443 is shown as 47873 |
| Chain.AddressIsShown | ebpf/decoder.go:81-85 | the IPv4 addresses of an event are shown as dotted quads in which one reads the four bytes stored, first to last |
| Chain.TaskIsShown | ebpf/decoder.go:119-127 | the task's name of an event is shown byte by byte up to its first NUL |
| Chain.SubmittedIsShown | ebpf/decoder.go:36-140 | whatever is submitted for an event, the agent shows field by field what was read for that event |
| Chain.EventReachesServer | egress/helper/helper.go:62-107 | from kernel event to parsed map: right if and only if the time is plain, the task's name, if asked for, has no comma before its NUL, and no number that the program stores exceeds int64 |
| Agent.StepKeepsOwned | ebpf/bcc.go:74-90 | every step of any worker or consumer keeps buffers owned one at a time and channels holding what was sent |
| Agent.EveryRun | ebpf/bcc.go:68-92 | this holds, with per-worker order, in every state reachable by any interleaving |
| Agent.Conservation | ebpf/bcc.go:74-90 | in every reachable state and for every channel: records printed by its workers are those received, queued and dropped |
| Agent.OneHolder | egress/csv/csv.go:89-100 | a buffer is pooled at most once, and never while somebody holds it |
| Agent.PoolChanges | ebpf/bcc.go:81-89 | of all steps only Put returns a buffer to the pool, the one its consumer held, and only taking one or the pool's own collection removes one |
| Agent.ReadersAreUndisturbed | egress/kafka/kafka.go:134-146 | what a consumer has read and what is left in its buffer make up the record that was sent |
| Agent.ReceiveIsFifo | ebpf/bcc.go:85-86 | a consumer gets the oldest record sent and not yet received |
| Agent.DropsOnlyWhenFull | ebpf/bcc.go:85-89 | a record is dropped exactly when its channel holds 1000, its buffer then not returning to the pool; else record and buffer are queued unchanged |
| Agent.SendKeepsOrder | ebpf/bcc.go:81-89 | a worker's records are on its channel in the order it printed them, without those dropped |
| Backoffs.Backoff.Wait | egress/helper/helper.go:115-138 | the first call, and one more than 1800 s after `last`, set two seconds and do not sleep; others sleep, those below 120 s 15% longer than before; only a sleeping call from 120 s on leaves `last` alone |
| Backoffs.OneCall | egress/helper/helper.go:116-132 | the same of call n of any run |
| Backoffs.StartsOverExactly | egress/helper/helper.go:116-132 | in any run a later call starts over if and only if more than 1800 s have passed since the latest call that grew the delay or started over |
| Backoffs.DelayIsBounded | egress/helper/helper.go:126-132 | from the first call on, the delay is in [2 s, 138 s) |
| Backoffs.AtOnceIsRare | egress/helper/helper.go:116-124 | two calls that return at once are more than thirty minutes apart |
| Backoffs.AtOnceRate | egress/helper/helper.go:116-124 | in any run such calls number at most one for each thirty minutes, and one |
| Backoffs.GrowthEnds | egress/helper/helper.go:126-129 | thirty sleeping calls in a row end the growth, at 120 s or more |
| Backoffs.SleepersGrow | egress/helper/helper.go:126-132 | k sleeping calls after a start leave the delay grown k times |
| Backoffs.GrownForgets | egress/helper/helper.go:121-129 | fully grown, sleeping moves nothing, and the next start depends only on the last growth |
| Grpc.Sender.SendLoop | egress/grpc/grpc.go:76-100 | a stream is exactly the records sent on it and its end; each sent buffer is given back, the failed one is not |
| Grpc.Sender.Run | egress/grpc/grpc.go:40-71 | all streams together are the script consumed; there are as many as attempts that connected; connections closed are the streams that could not be opened and those that broke; each attempt asks the backoff once |
| Grpc.RecordsAreAccountedFor | egress/grpc/grpc.go:84-94 | every record taken is sent or lost, in order, over any number of reconnects |
| Grpc.OneLossEach | egress/grpc/grpc.go:61-66 | each broken stream loses exactly one record |
| Kafka.Pooled.Reprint | ebpf/bcc.go:81-83 | a buffer from the pool is emptied and printed into, in the same storage if that is large enough |
| Kafka.AddHostname | egress/kafka/kafka.go:180-187 | returns a fresh array with the record, its last byte a comma, and the tail; the buffer keeps its contents; an empty buffer panics |
| Kafka.JsonLoop | egress/kafka/kafka.go:129-152 | every record taken is handed to the producer with the host name, in order, or displaced by one producer error; while buffers are printed into again, every message handed over keeps its own record, in storage of its own |
| Kafka.OutcomeExactly | egress/kafka/kafka.go:129-152 | for any script: handed over are exactly the records taken while the inner select was ready for them, each being what was last printed into its buffer, in order; the other takes are errors; the loop panics if and only if it stops at an empty buffer |
| Kafka.BuffersComeBack | egress/kafka/kafka.go:145 | the buffers taken are given back once each, in order, one for each record handed over or displaced, all of them if and only if the loop does not panic |
| Ingest.Ingester.Collect | ingestion/clickhouse/clickhouse.go:117-146 | the inner loop consumes exactly one possible history of a transaction, of the right size |
| Ingest.Ingester.Run | ingestion/clickhouse/clickhouse.go:91-159 | the log of transactions is a sequence of possible histories, each of the right size and idle time, that together are the wakeups consumed, matching the database's script; the backoff is called once for each refusal |
| Ingest.RowsAreConserved | ingestion/clickhouse/clickhouse.go:100-158 | the rows taken, in order, are those of the committed batches and then of the open one |
| Ingest.BatchSizes | ingestion/clickhouse/clickhouse.go:130-137 | a full batch has exactly BatchSize rows (1 if that is below 1), one flushed by a tick has 1 to BatchSize - 1, one committed at shutdown or still open fewer than a full one; abandoned transactions have none |
| Ingest.TicksArePossible | ingestion/clickhouse/clickhouse.go:134-141 | a transaction is forgotten after exactly 300/F - 1 idle ticks (one if F is not in 1..100), and no other sees as many; F = 0 crashes at the first |
| Ingest.TickFlushes | ingestion/clickhouse/clickhouse.go:134-137 | no transaction with rows survives a tick |
| Ingest.IdleTime | ingestion/clickhouse/clickhouse.go:138-141 | the limit on idle ticks for every F but 0; nominal idle time is at most max(F, 300 - F) seconds |
| Ingest.IdleTransactionsPileUp | ingestion/clickhouse/clickhouse.go:138-141 | over ticks alone, transactions left unfinished number exactly the ticks divided by the limit |
| Rows.Clickhouse.Json | ingestion/clickhouse/clickhouse.go:161-186 | one cell for each field, in order: geo's text where it has the name, else the record's own text or number in the column's type, else nothing; a panic where a number is missing or geo is asked about one |
| Rows.Clickhouse.Spb | ingestion/clickhouse/clickhouse.go:218-246 | one cell for each field, in order: the record's own text or number in the column's type; where it has none, geo's text or an empty one, and 0 for a number |
| Rows.Clickhouse.Pb | ingestion/clickhouse/clickhouse.go:188-216 | one cell for each field, in order: the message's own text or exact number in the column's type; where it has none, geo's text or nothing |
| Rows.JsonRowAgrees | ingestion/clickhouse/clickhouse.go:161-186 | for every record, JSON and struct rows are equal if and only if geo is not asked about a number and every requested field is in the record or, as the same text, in both geo answers, without contradiction |
| Rows.PbRowAgrees | ingestion/clickhouse/clickhouse.go:188-216 | for every record, plain and struct rows are equal if and only if every requested field is in the record, exactly representable if a number, or as the same text in both geo answers |
| Rows.GeoAnswers | ingestion/clickhouse/clickhouse.go:161-227 | what the three paths ask geo about when the geo field is missing, a number, or a text |
| Rows.StoredNumberIsClose | ingestion/clickhouse/clickhouse.go:232-235 | a stored number is the record's through float64: off by at most its 2^-53rd part, exact up to 2^53 |
| Rows.ThreeRows | ingestion/clickhouse/clickhouse.go:259-270 | both equivalences, and what each row holds, for the three methods run on any one record |
| Influx.MakePoint | ingestion/influxdb/influxdb.go:102-128 | the walk visits every key once in some order; if no geo tag contradicts the record, the point has exactly a tag for every text but the one geo is asked about, geo's tags, a field for every number but the time, and the time |
| Influx.OrderDoesNotMatter | ingestion/influxdb/influxdb.go:111-125 | all orders give the same point if and only if no geo tag contradicts a tag of the record |
| Influx.MakePointPb | ingestion/influxdb/influxdb.go:131-164 | the pass over the declared fields, by kind, gives the point of its specification, and, if no tag contradicts, exactly those tags, fields and time |
| Influx.MessagePointAgrees | ingestion/influxdb/influxdb.go:131-164 | the plain message's point is that of the other two encodings, in whatever order their maps are walked, if and only if no geo tag contradicts the record and every number survives float64 |
| Config.MakeTables | ebpf/data.go:377-391 | the lower-case table leads every name's spelling to a name of the table with that spelling |
| Names.SpellingsAreUnique | ebpf/data.go:377-379 | no two of the 53 names differ in case alone |
| Config.InitTables | ebpf/data.go:377-404 | for the actual table, in whatever order it is walked: a spelling is validated to a name if and only if they differ in case alone |
| Config.ValidationIsIdempotent | tcpdog/helper.go:43-58 | validating a valid list again changes nothing, and every name in it is one of the table's |
| Config.Config.ValidateFields | tcpdog/helper.go:43-58 | respells entries in place up to the first unknown one, which stays with all after it: each gets the table's name for its spelling, in the filter too, and keeps its math; other templates are untouched |
| Config.Config.ValidateTemplates | tcpdog/helper.go:12-18 | over all tracepoints, each template ends up respelled once, entry by entry, however many share it |
| Wiring.Wire | tcpdog/main.go:47-62 | each egress gets one consumer, with the template of the first tracepoint naming it |
| Wiring.OnlyTheSameListReads | egress/helper/helper.go:62-107 | over all plain values and ten-byte times, records printed with one list are all read right with another if and only if it is the same list |
| Wiring.OnlySameWidthsGiveRows | egress/csv/csv.go:42-53 | over the same records, csv and jsonl rows cut out with another list are all right if and only if the names have the same lengths, one by one |
| Wiring.OnlyTheSameListLabels | egress/csv/csv.go:42-58 | rows and header together are right if and only if the list is the same, and not empty |
| Wiring.SharedEgressNeedsOneList | tcpdog/main.go:47-74 | for every configuration: the struct parser reads all records of all tracepoints right if and only if those that share an egress have the same list |
| Wiring.SharedFileNeedsWidths | tcpdog/main.go:47-74 | the same for csv and jsonl rows, if and only if their names have the same lengths |

## Left out

- Decoding.ReadBytes: treats a slice beyond the data's length as a panic; Go allows it up to the slice's capacity.
- That the kernel keeps `skc_dport` in network order and `skc_num` in its own is a fact about the kernel, not part of this model.
- Relay.EndToEnd: `net.IP.String` on sixteen bytes (section 4 of RFC 5952) is a parameter whose results have no comma.
- Program.InitText: of C, brackets and members behind pointers are read; a group is evaluated to one `int` by a parameter, so operator precedence, C's types inside an expression, casts, comments and semicolons in the user's math are not modelled; the machine is little-endian.
- Messages.ReadFields: a number in quotes, a null and a name in another spelling, all of which protojson takes, are never printed and count as errors.
- Messages.PlainBringsIntended: times from 1970 on; a negative time is no uint64 and ends the reading.
- Program.CondHolds: a condition is evaluated by a parameter from its tokens; C's grammar and types are not modelled.
- Json.ReadObject: compact objects of strings and integers only; white space, fractions and nested values are not read.
- AsWritten.Validate: names in ASCII; a letter beyond it that lower-cases into ASCII (the Kelvin sign) leaves no word of C to bind, so such an entry has only `Config`'s laws.
- Relay.TwoReadersAgree: assumes a host name in UTF-8 that needs no escape.
- Program.ReqFieldOf: the table's own `Filter` and `Func` attributes are empty in every entry and are left out.
- Counter.SampleStep: one atomic step per event; races between CPUs on the kernel's hash are not modelled.
- Agent.Read: a consumer reads its buffer in pieces; which bytes it keeps of them is the subject of the egress modules.
- Rows.JsonCell: conversions of a float64 outside the target integer's range, which Go leaves to the implementation, are reduced modulo its size.
- Ingest.Ingester.Run: ticks may come at any time; how long the timer takes is not modelled.
- `text/template` and the C compiler: the program is modelled as the statements that the template yields.
- `protobufLoop` (the same select as `jsonLoop`), protobuf wire encoding, sarama, the gRPC transport, database drivers: only that a send or an insert succeeds or fails.
- The Elasticsearch item makers, ingress servers, MaxMind lookups, console egress, command line, YAML, TLS, logging and files.
- Messages.RecordRows: no state field, which the message cannot carry, and no geo lookup; for those see `Messages.StateFieldCuts` and the row theorems.
- Kafka.JsonLoop: the pool is the given buffers; a buffer that `sync.Pool` makes or lets go is the subject of `Agent`.
