# Verified model of the onos-test benchmark service

This project models five parts of onos-test in Dafny and proves what they promise.

1. **The protobuf wire codec** of the benchmark and simulation services. `Varint`, `Wire` and
   `Messages` say what is encoded and decoded, over byte sequences. `Buffer` and
   `BenchmarkMessages` hold the generated code's own loops: the writer that fills a buffer from its
   end, and the reader's cursor loops, proved equal to those functions, and to what they leave in the
   fields when they fail. `Layout` says which bytes stand for which field, by
   tag byte and name. `MessageLaws`, `MessageSizes`, `Rejections`, `EntryOverrun`, `Groups` and
   `SimulationMessages` hold the laws: which error answers which malformed input, skipping is exact in both directions, the grammar of fields has
   one parse, every message comes back in every order of its map, decoding is a homomorphism, fields
   of different numbers commute, unknown fields are ignored at the top and inside map entries, sizes
   are exact.
2. **The benchmark pipeline**: `Pipeline` is the step relation of one producer, any number of
   clients and one aggregator over two bounded channels; `Aggregator`, `Percentiles` and
   `Coordinator` are the batch averaging, the summary of one worker, and the request split and merge
   over all workers.
3. **The shared ClusterRoleBinding** (`RoleBinding`): many clusters, each with get, then create or
   append-and-update, retrying on AlreadyExists or Conflict. The server keeps the contract of the
   Kubernetes API Conventions, section "Concurrency Control and Consistency".
4. **Fan-out and fan-in**: `FanIn` is one machine for the cluster set-up, the run of all suites, and
   the set-up and run of a benchmark on all workers; `WorkerPool` is the bounded pool that adds
   simulators.
5. **Configuration through the environment**: `EnvMap` (maps as text) and `Config`.

`Basics` and `Counting` hold what several modules share. Strings of the codec are byte
sequences, cursors are unbounded, and varint values are 64-bit with the lost bits written out. The
format is that of the Protocol Buffers Encoding specification, sections "Base 128 Varints",
"Message Structure", "Length-Delimited Records", "Groups", "Last One Wins" and "Maps".

## Where the code does less than it promises

The model follows the code. For each gap there is an exact condition.

- **Collapse of the aggregated results.** The comment at `pkg/benchmark/benchmark.go:263` says that
  the aggregated results are aggregated, which is `Aggregator.Intended`. The loop starts with the
  count already at 100, so no batch is ever completed and all results are dropped. The code gives
  what the comment asks for, on all durations of a given number, exactly when they are fewer than
  1000000 (`Aggregator.IntendedIff`). Some result is kept at all exactly when the number is not a
  multiple of 1000000 (`Aggregator.KeptIff`, with `Aggregator.AggregateMillion` as the input); with
  nothing kept, `Run` divides by zero (`Pipeline.ResultsIff`).
- **Set-up of the workers.** An unbuffered error channel is read only after all workers have
  answered, so a set-up returns if no worker fails and never returns if one does
  (`FanIn.SetupWorkersIff`, with `FanIn.OneFailing` as the input). `runBenchmark` begins with such a
  set-up: once the workers are dialled it returns exactly if all of them set the benchmark up and all
  of them answer (`FanIn.BenchmarkReturnsIff`). A suite that hangs there holds up the run of all
  suites unless another suite fails (`FanIn.RunWorkersIff`).
- **Map entries.** Key and value lengths are checked against the whole input, not the entry. The code
  reads an entry as its own bytes say exactly when those bytes are a concatenation of keys, values
  and well-formed fields of other numbers (`EntryOverrun.EntryConfined`). Over whole messages, it
  decodes what a decoder that stays inside entries decodes exactly when every entry is such a
  concatenation (`EntryOverrun.BoundedIff`); `EntryOverrun.OverrunHappens` is a message of which
  three bytes are read twice.
- **Groups.** The Encoding specification pairs an end-group tag with a start-group tag of the same
  field number; the skipper compares no numbers (`Groups.UnpairedAccepted`). What it accepts is one
  field, and a skipper that compares numbers accepts it too exactly when all groups of that field are
  paired (`Groups.SkipConformsIff`).
- **Requests per worker.** A share of zero means no bound, and shares are cut to 32 bits. With no time
  limit, all workers together make the requests less the remainder of the division exactly when
  there are at least as many requests as workers and the quotient is below 2^32
  (`Coordinator.SplitIff`, with `Coordinator.SplitFails` as the inputs), and never stop exactly when
  the quotient is a multiple of 2^32 (`Coordinator.UnboundedIff`); the benchmark then never returns
  (`Coordinator.BenchmarkNeverReturns`).
- **The median.** Its index is the nearest rank for even lengths and for one result only; for other
  odd lengths it is one entry lower (`Percentiles.MedianIndexIffEven`).
- **Map text.** Arguments survive exactly when no key has a separator in it and no value a comma
  (`EnvMap.RoundTripIff`, with `EnvMap.CommaCuts` and `EnvMap.ListCut` as inputs).
- **Stale durations.** Settings survive exactly when, besides, no duration was left over in the map
  (`Config.SettingsRoundTripIff`); what a stale one does is `Config.StaleTakesOver`, with
  `Config.FiveLeftOver` as the input. The repository's own callers leave none: the map of
  `pkg/onit/cli/benchmark.go:86` holds only the cluster's arguments (`Config.FirstHopIff`), and
  settings that were read can be written over the environment they were read from any number of
  times (`Config.HopsLossless`).
- **A nil map.** `ToEnv` fails on a configuration without a map, as the one at
  `pkg/benchmark/cli.go:57-68` is (`Config.RoundTrip`).

## Model

| member | source | states |
|---|---|---|
| Varint.SovIsLength | pkg/benchmark/benchmark.pb.go:1242-1244 | the size function is the number of bytes the write loop produces |
| Varint.VarintRoundTrip | pkg/benchmark/benchmark.pb.go:1522-1532 | every 64-bit value takes 1 to 10 bytes and reads back, before any suffix, with exactly those bytes consumed |
| Varint.VarintShortest | pkg/benchmark/benchmark.pb.go:1100-1110 | no varint the reader accepts for a value is shorter than the one written |
| Varint.ReadVarintExtends | pkg/benchmark/benchmark.pb.go:1522-1532 | a read that succeeds depends on nothing behind the varint |
| Buffer.EncodeVarintAt | pkg/benchmark/benchmark.pb.go:1100-1110 | the forward loop fills exactly the reserved gap before `offset` with the encoding and touches nothing else |
| Buffer.ReadVarintAt | pkg/benchmark/benchmark.pb.go:1522-1532 | the shift loop computes the varint's value modulo 2^64, or the same error and the bits gathered so far |
| Wire.SkipExact | pkg/benchmark/benchmark.pb.go:2462-2539 | every well-formed field of any wire type and group nesting, with any suffix, is skipped to exactly its last byte |
| Wire.SkipSizes | pkg/benchmark/benchmark.pb.go:2483-2527 | how far each wire type outside groups takes the skipper, whatever the payload |
| Wire.SkipComplete | pkg/benchmark/benchmark.pb.go:2462-2539 | whatever the skipper accepts within the input is one well-formed field |
| Wire.SkipIffField | pkg/benchmark/benchmark.pb.go:2462-2539 | the skipper accepts n bytes if and only if they are the encoding of a well-formed field |
| Wire.SkipExtends | pkg/benchmark/benchmark.pb.go:2462-2539 | a skip within the input depends on nothing behind it |
| Groups.UnpairedAccepted | pkg/benchmark/benchmark.pb.go:2519-2525 | two bytes that open group 1 and close group 2 are skipped as one field |
| Groups.StrictIffField | pkg/benchmark/benchmark.pb.go:2462-2539 | a skipper that keeps a stack of open numbers accepts n bytes if and only if they are a well-formed field whose groups are all paired |
| Groups.SkipConformsIff | pkg/benchmark/benchmark.pb.go:2462-2539 | whatever the skipper accepts is the encoding of exactly one field, and the comparing skipper accepts it too if and only if the groups of that field are paired at every depth |
| Groups.OneParse | pkg/benchmark/benchmark.pb.go:2462-2539 | bytes begin with at most one well-formed field: the grammar is unambiguous |
| Groups.StrictIffPaired | pkg/benchmark/benchmark.pb.go:2519-2525 | the comparing skipper accepts a well-formed field, before any suffix, if and only if its groups are paired |
| Buffer.SkipRoundAt | pkg/benchmark/benchmark.pb.go:2467-2534 | one round of the loop moves the cursor and the depth as the wire type demands, with every error |
| Buffer.Skip | pkg/benchmark/benchmark.pb.go:2462-2539 | the cursor and depth loop computes the skipper's function on every input, errors included |
| Wire.DelimitedRoundTrip | pkg/benchmark/benchmark.pb.go:1546-1573 | a written length and payload read back, whatever follows |
| Buffer.ReadDelimitedAt | pkg/benchmark/benchmark.pb.go:1546-1573 | length, bounds and payload, with a negative or too large length reported |
| Buffer.PutTagged | pkg/benchmark/benchmark.pb.go:894-900 | payload, length and tag lie in this order before the cursor, and no byte below changes |
| Buffer.PutEntry | pkg/benchmark/benchmark.pb.go:877-891 | a map entry's length, computed as a distance of cursors, is that of its key and value fields |
| Buffer.PutEntries | pkg/benchmark/benchmark.pb.go:875-893 | whichever order the map is walked in, its entries are in place once each and nothing below changes |
| Buffer.PutText | pkg/benchmark/benchmark.pb.go:894-900 | a text field is put in front of the fields in place exactly when it is not empty |
| Buffer.PutNumber | pkg/benchmark/benchmark.pb.go:973-977 | a number field is put in front exactly when it is not zero |
| Buffer.PutTime | pkg/benchmark/benchmark.pb.go:978-987 | a duration field is put in front of the fields in place |
| Buffer.PutArgs | pkg/benchmark/benchmark.pb.go:954-972 | the map of the last field is in place at the end of the buffer, in the order walked |
| Buffer.ReadEntryAt | pkg/benchmark/benchmark.pb.go:1606-1732 | the entry loop reads the last key and value, skips other fields, and leaves the cursor at the end of the entry |
| Buffer.ReadTagAt | pkg/benchmark/benchmark.pb.go:1533-1540 | a tag is accepted unless it ends a group or its number is not positive as an int32 |
| Buffer.ReadTextAt | pkg/benchmark/benchmark.pb.go:1542-1573 | a text field, or the error of its wire type, length or bounds |
| Buffer.ReadNumberAt | pkg/benchmark/benchmark.pb.go:1903-1921 | a number field keeps the low 32 bits of its varint, or, on an error, those of the bytes looked at |
| Buffer.ReadTimeAt | pkg/benchmark/benchmark.pb.go:1922-1957 | a duration field, or the error of its payload |
| Buffer.SkipUnknownAt | pkg/benchmark/benchmark.pb.go:1733-1748 | a skip that would leave the input is an error |
| Buffer.SizeOfArgs | pkg/benchmark/benchmark.pb.go:1155-1162 | the loop over the map adds up to the same size in every order |
| MessageSizes.EntriesLength | pkg/benchmark/benchmark.pb.go:1155-1162 | the computed size of a map is the length of its entries in every order |
| MessageSizes.LengthFromIsExact | pkg/benchmark/benchmark.pb.go:1141-1164 | the computed size is exact for the fields from any one on |
| MessageSizes.SizeOrderFree | pkg/benchmark/benchmark.pb.go:1175-1208 | two encodings of one message in different orders both have the computed size |
| Messages.ReadField | pkg/benchmark/benchmark.pb.go:1516-1749 | a round that succeeds moves the cursor forward, stays within the input, and keeps the kind of every field |
| MessageLaws.DecodeEncoded | pkg/benchmark/benchmark.pb.go:1513-1756 | decoding an encoding, whatever its order and whatever follows, merges it into what was there |
| MessageLaws.RoundTrip | pkg/benchmark/benchmark.pb.go:870-909 | in every order of the map, the encoding decodes into an empty message as the same message |
| MessageLaws.DecodeAppend | pkg/benchmark/benchmark.pb.go:1810-2127 | once a decodes, decoding a and then b is decoding b into the result of a |
| MessageLaws.ConcatenationMerges | pkg/benchmark/benchmark.pb.go:949-1008 | two encodings end to end decode to the merge: last non-default scalar, right-biased union of maps |
| MessageLaws.ReadFieldExtends | pkg/benchmark/benchmark.pb.go:1516-1749 | a round that succeeds depends on nothing behind its field |
| MessageLaws.UnknownFieldIgnored | pkg/benchmark/benchmark.pb.go:1733-1748 | an unknown field of any shape inserted at a field boundary changes nothing |
| MessageLaws.FieldsCommute | pkg/benchmark/benchmark.pb.go:1516-1749 | two fields of different numbers, next to each other anywhere, can change places |
| MessageLaws.DecodeKeepsSchema | pkg/benchmark/benchmark.pb.go:1513-1756 | whether decoding succeeds or fails, the message keeps its schema |
| MessageLaws.ReencodedDecodes | pkg/benchmark/benchmark.pb.go:1810-2127 | for every accepted input, what was decoded, encoded in any order and decoded again, is the same message |
| MessageLaws.FailureLeaves | pkg/benchmark/benchmark.pb.go:1903-1957 | a failure keeps everything decoded before it, and in the field it happens in it changes only a number or a missing duration |
| Rejections.VarintFails | pkg/benchmark/benchmark.pb.go:1522-1532 | a varint overflows exactly when its first ten bytes all say another follows, and misses bytes exactly when fewer are there and all do |
| Rejections.LengthFails | pkg/benchmark/benchmark.pb.go:1561-1564 | a length that is negative as an int is refused, whatever follows |
| Rejections.SkipFails | pkg/benchmark/benchmark.pb.go:2521-2529 | an end-group tag outside groups and the wire types 6 and 7 have their own errors |
| Rejections.TruncationRejected | pkg/benchmark/benchmark.pb.go:1513-1756 | a field of any kind cut short anywhere, behind whatever decodes, is answered with an unexpected end of input |
| Rejections.BadTagRejected | pkg/benchmark/benchmark.pb.go:1533-1545 | the error of a tag no field can start with: end of group, then illegal number, then wrong wire type |
| Rejections.FieldNumberIs | pkg/benchmark/benchmark.pb.go:1533 | the field number is the number in the tag as an int32 |
| Rejections.BadDurationError | pkg/benchmark/benchmark.pb.go:1951-1956 | a payload that does not decode is an error of its own |
| Rejections.NumberTruncates | pkg/benchmark/benchmark.pb.go:1903-1921 | a number field keeps the low 32 bits of any varint |
| Rejections.NumberHalfRead | pkg/benchmark/benchmark.pb.go:1907-1921 | a number cut short leaves the bits that were there in its field |
| Rejections.DurationMade | pkg/benchmark/benchmark.pb.go:1951-1956 | a duration that does not decode is made all the same where there was none |
| Layout.SuiteRequestLayout | pkg/benchmark/benchmark.pb.go:798-830 | the bytes of a suite request: suite under 0x0a, entries under 0x12 |
| Layout.BenchmarkRequestLayout | pkg/benchmark/benchmark.pb.go:870-909 | the bytes of a benchmark request: suite under 0x0a, benchmark under 0x12, entries under 0x1a |
| Layout.RunRequestLayout | pkg/benchmark/benchmark.pb.go:949-1008 | the bytes of a run request, field by field under 0x0a, 0x12, 0x18, 0x22, 0x28 and 0x32 |
| Layout.RunResponseLayout | pkg/benchmark/benchmark.pb.go:1025-1098 | the bytes of a run response, field by field under 0x0a, 0x12, 0x18 and 0x22 to 0x4a |
| Layout.SomeVarints | pkg/benchmark/benchmark.pb.go:1100-1110 | three varints, byte for byte |
| Layout.SomeRequest | pkg/benchmark/benchmark.pb.go:870-909 | a benchmark request with an argument, byte for byte |
| EntryOverrun.EntryConfined | pkg/benchmark/benchmark.pb.go:1641-1732 | the entry loop reads what the entry's own bytes say if and only if those bytes are a concatenation of keys, values and well-formed fields of other numbers |
| EntryOverrun.EntryIffParts | pkg/benchmark/benchmark.pb.go:1640-1730 | the entry loop accepts an entry alone if and only if it is made of parts |
| EntryOverrun.BoundedIff | pkg/benchmark/benchmark.pb.go:1513-1756 | a decoder that stays inside entries succeeds if and only if the code does and every entry of the input is made of parts, and then with the same message |
| EntryOverrun.EntryDecodes | pkg/benchmark/benchmark.pb.go:1606-1732 | an entry made of any parts sets the last key in it to the last value in it |
| EntryOverrun.UnknownInEntryIgnored | pkg/benchmark/benchmark.pb.go:1716-1729 | a well-formed field of another number anywhere in an entry changes nothing |
| EntryOverrun.ValueBeforeKey | pkg/benchmark/benchmark.pb.go:1641-1732 | the value of an entry may come before its key |
| EntryOverrun.OverrunHappens | pkg/benchmark/benchmark.pb.go:1682-1732 | a whole message on which the entry loop runs three bytes past the entry, which are then read once more as a field |
| BenchmarkMessages.SuiteRequest.Size | pkg/benchmark/benchmark.pb.go:1111-1130 | the size of the encoding |
| BenchmarkMessages.SuiteRequest.MarshalToSizedBuffer | pkg/benchmark/benchmark.pb.go:798-830 | only the last `Size()` bytes change, and they hold suite under 0x0a and entries under 0x12, in an order of the map |
| BenchmarkMessages.SuiteRequest.Marshal | pkg/benchmark/benchmark.pb.go:783-791 | the first n bytes of the fresh buffer are the whole encoding: suite under 0x0a and entries under 0x12 |
| BenchmarkMessages.SuiteRequest.UnmarshalField | pkg/benchmark/benchmark.pb.go:1251-1451 | one round in place: the named field is replaced or merged, others are kept; on an error, the same error and exactly what the code leaves in the fields |
| BenchmarkMessages.SuiteRequest.Unmarshal | pkg/benchmark/benchmark.pb.go:1248-1459 | on every input it ends with the decoded fields, or with the decoder's error and exactly what had been read before it; one field alone, by its tag byte, sets the field of that name and no other |
| BenchmarkMessages.CopySuiteRequest | pkg/benchmark/benchmark.pb.go:1248-1459 | marshalling and unmarshalling into a new object gives the same fields, name by name |
| BenchmarkMessages.BenchmarkRequest.Size | pkg/benchmark/benchmark.pb.go:1141-1164 | the size of the encoding |
| BenchmarkMessages.BenchmarkRequest.MarshalToSizedBuffer | pkg/benchmark/benchmark.pb.go:870-909 | only the last `Size()` bytes change, and they hold suite under 0x0a, benchmark under 0x12 and entries under 0x1a, in an order of the map |
| BenchmarkMessages.BenchmarkRequest.Marshal | pkg/benchmark/benchmark.pb.go:855-863 | the first n bytes of the fresh buffer are the whole encoding: suite under 0x0a, benchmark under 0x12 and entries under 0x1a |
| BenchmarkMessages.BenchmarkRequest.UnmarshalField | pkg/benchmark/benchmark.pb.go:1516-1749 | one round in place: the named field is replaced or merged, others are kept; on an error, the same error and exactly what the code leaves in the fields |
| BenchmarkMessages.BenchmarkRequest.Unmarshal | pkg/benchmark/benchmark.pb.go:1513-1756 | on every input it ends with the decoded fields, or with the decoder's error and exactly what had been read before it; one field alone, by its tag byte, sets the field of that name and no other |
| BenchmarkMessages.CopyBenchmarkRequest | pkg/benchmark/benchmark.pb.go:1513-1756 | marshalling and unmarshalling into a new object gives the same fields, name by name |
| BenchmarkMessages.RunRequest.Size | pkg/benchmark/benchmark.pb.go:1175-1208 | the size of the encoding |
| BenchmarkMessages.RunRequest.MarshalToSizedBuffer | pkg/benchmark/benchmark.pb.go:949-1008 | only the last `Size()` bytes change, and they hold suite, benchmark, requests, duration, parallelism and entries under 0x0a, 0x12, 0x18, 0x22, 0x28 and 0x32, in an order of the map |
| BenchmarkMessages.RunRequest.Marshal | pkg/benchmark/benchmark.pb.go:934-942 | the first n bytes of the fresh buffer are the whole encoding: suite, benchmark, requests, duration, parallelism and entries under 0x0a, 0x12, 0x18, 0x22, 0x28 and 0x32 |
| BenchmarkMessages.RunRequest.UnmarshalField | pkg/benchmark/benchmark.pb.go:1813-2120 | one round in place: the named field is replaced or merged, others are kept; on an error, the same error and exactly what the code leaves in the fields |
| BenchmarkMessages.RunRequest.Unmarshal | pkg/benchmark/benchmark.pb.go:1810-2127 | on every input it ends with the decoded fields, or with the decoder's error and exactly what had been read before it; one field alone, by its tag byte, sets the field of that name and no other |
| BenchmarkMessages.CopyRunRequest | pkg/benchmark/benchmark.pb.go:1810-2127 | marshalling and unmarshalling into a new object gives the same fields, name by name |
| BenchmarkMessages.RunResponse.Size | pkg/benchmark/benchmark.pb.go:1210-1240 | the size of the encoding |
| BenchmarkMessages.RunResponse.MarshalToSizedBuffer | pkg/benchmark/benchmark.pb.go:1025-1098 | only the last `Size()` bytes change, and they hold suite, benchmark, requests and the six durations under 0x0a, 0x12, 0x18 and 0x22 to 0x4a, in an order of the map |
| BenchmarkMessages.RunResponse.Marshal | pkg/benchmark/benchmark.pb.go:1010-1018 | the first n bytes of the fresh buffer are the whole encoding: suite, benchmark, requests and the six durations under 0x0a, 0x12, 0x18 and 0x22 to 0x4a |
| BenchmarkMessages.RunResponse.UnmarshalField | pkg/benchmark/benchmark.pb.go:2131-2454 | one round in place: the named field is replaced, others are kept; on an error, the same error and exactly what the code leaves in the fields |
| BenchmarkMessages.RunResponse.Unmarshal | pkg/benchmark/benchmark.pb.go:2128-2461 | on every input it ends with the decoded fields, or with the decoder's error and exactly what had been read before it; one field alone, by its tag byte, sets the field of that name and no other |
| BenchmarkMessages.CopyRunResponse | pkg/benchmark/benchmark.pb.go:2128-2461 | marshalling and unmarshalling into a new object gives the same fields, name by name |
| SimulationMessages.SimulationRoundTrip | pkg/simulation/simulation.pb.go:679-763 | messages of the three simulation schemas decode as they were encoded, in every order of their arguments |
| SimulationMessages.SimulationRequestBytes | pkg/simulation/simulation.pb.go:607-639 | the exact bytes of a simulation request |
| SimulationMessages.StepRequestBytes | pkg/simulation/simulation.pb.go:679-718 | the exact bytes of a step request |
| SimulationMessages.StepResponseBytes | pkg/simulation/simulation.pb.go:735-763 | the exact bytes of a step response, names set or not, and that they decode to it |
| Pipeline.StepKeepsInv | pkg/benchmark/benchmark.go:230-313 | every step of every goroutine keeps the invariant: nothing is sent on a closed channel, and every request is in exactly one place |
| Pipeline.Progress | pkg/benchmark/benchmark.go:230-313 | until the producer has returned, some goroutine can take a step |
| Pipeline.StepDecreases | pkg/benchmark/benchmark.go:230-313 | every step uses up exactly one of the steps left |
| Pipeline.NoPanic | pkg/benchmark/benchmark.go:235-313 | over whole runs, nothing panics and what is received is part of what was issued |
| Pipeline.RunsEndComplete | pkg/benchmark/benchmark.go:287-313 | every schedule takes the same number of steps, ends only with the producer returned, and the aggregator has then received each request exactly once |
| Pipeline.AllReceived | pkg/benchmark/benchmark.go:287-313 | a run that has ended issued and received as many requests as the loop made rounds |
| Pipeline.ResultOrder | pkg/benchmark/benchmark.go:234-256 | over every step, what was received and what is queued change only by what is delivered, at the end |
| Pipeline.RequestOrder | pkg/benchmark/benchmark.go:233-238 | over every step, what is taken and what is queued change only by what is issued, at the end |
| Pipeline.FirstInFirstOut | pkg/benchmark/benchmark.go:233-285 | over whole runs, requests are taken in the order of issue and durations received in the order of delivery |
| Pipeline.OneClientInOrder | pkg/benchmark/benchmark.go:235-285 | with one client, durations are received in the order in which their requests were issued |
| Pipeline.ChannelsBound | pkg/benchmark/benchmark.go:233-234 | no more than one request a client and a hundred results are queued, and a send waits exactly when its channel is full |
| Pipeline.StuckWithoutClients | pkg/benchmark/benchmark.go:233-246 | with no client and something to issue, nothing can ever move |
| Pipeline.ResultsIff | pkg/benchmark/benchmark.go:149-160 | in every schedule there are results to summarize exactly when the number of requests is not a multiple of a million |
| Pipeline.RunSummary | pkg/benchmark/benchmark.go:150-173 | in every schedule the reported latencies are the summary of the averages of the latencies in batches of a hundred, taken in the order of delivery; they are in order, and lie between the shortest and longest latency measured |
| Pipeline.RunMean | pkg/benchmark/benchmark.go:150-159 | in every schedule of whole batches below the first collapse, the reported mean times the requests is at most the latencies measured, and less than two units a request below them |
| Aggregator.Collapse | pkg/benchmark/benchmark.go:265-275 | the collapse loop, from whatever total and count it is started on |
| Aggregator.CollapseKeepsNothing | pkg/benchmark/benchmark.go:264-276 | started with a full count, it never completes a batch |
| Aggregator.Aggregate | pkg/benchmark/benchmark.go:249-285 | as written, the results are the batch averages of the durations since the last multiple of a million |
| Aggregator.KeptIff | pkg/benchmark/benchmark.go:249-285 | something is kept if and only if the number of durations is not a multiple of a million, and exactly ceil((n mod 10^6) / 100) entries are |
| Aggregator.IntendedIff | pkg/benchmark/benchmark.go:249-285 | for every number n of durations, code and intention agree on all of them if and only if n is below a million |
| Aggregator.AggregateMillion | pkg/benchmark/benchmark.go:264-276 | a million durations leave no result |
| Aggregator.BatchesLength | pkg/benchmark/benchmark.go:256-283 | one entry for every started batch |
| Aggregator.BatchesAt | pkg/benchmark/benchmark.go:256-283 | entry i is the truncated average of durations 100 i to 100 i + 99, or of those there are |
| Aggregator.BatchesWithin | pkg/benchmark/benchmark.go:261-282 | every entry lies between the shortest and longest duration |
| Aggregator.RoundingLoss | pkg/benchmark/benchmark.go:261-282 | rounding never adds, and loses less than one unit for every duration |
| Aggregator.MeanClose | pkg/benchmark/benchmark.go:153-159 | rounding in the batches and in their mean loses less than two units a duration |
| Aggregator.CollapseIsBatching | pkg/benchmark/benchmark.go:263-276 | started from nothing, the collapse is one more round of batch averages |
| Aggregator.IntendedKept | pkg/benchmark/benchmark.go:249-285 | as the comment intends: results are non-empty exactly when a duration arrived, are at most 10000, and lie between the extremes |
| Aggregator.IntendedIsBatches | pkg/benchmark/benchmark.go:249-285 | on top of any results, the intended results before the first collapse are the batch averages |
| Aggregator.IntendedLength | pkg/benchmark/benchmark.go:263-276 | the exact number of intended results for every number of durations |
| Percentiles.IndicesInBounds | pkg/benchmark/benchmark.go:160-163 | for every length the four indices are in bounds and in order |
| Percentiles.IndexIsRank | pkg/benchmark/benchmark.go:160-163 | the three upper indices are exactly the nearest ranks of 75, 95 and 99 percent, and the lowest is half the length, rounded down |
| Percentiles.RankIsLeast | pkg/benchmark/benchmark.go:160-163 | a rank is the smallest number of entries that is at least that many percent of all |
| Percentiles.MedianIndexIffEven | pkg/benchmark/benchmark.go:160 | the median index is the nearest rank if and only if the length is even or one |
| Percentiles.SummaryHolds | pkg/benchmark/benchmark.go:152-163 | on sorted results, the entries picked by index are the nearest-rank values |
| Percentiles.SummaryUnique | pkg/benchmark/benchmark.go:152-163 | no other latencies are a summary of the same results |
| Percentiles.SummaryOrderFree | pkg/benchmark/benchmark.go:315-318 | sorting does not change what the summary is a summary of |
| Percentiles.Summarize | pkg/benchmark/benchmark.go:152-173 | a summary of the results, or a failed division when there are none |
| Coordinator.Merge | pkg/benchmark/coordinator.go:542-565 | sums of requests modulo 2^32, the longest duration, averaged latencies, and percentiles that stay in order |
| Coordinator.MergedOne | pkg/benchmark/coordinator.go:549-565 | the merge of one report is that report |
| Coordinator.MergedTwo | pkg/benchmark/coordinator.go:549-565 | two reports: the requests added, the longer duration, each latency averaged with its own kind |
| Coordinator.MergedReordered | pkg/benchmark/coordinator.go:549-557 | the merge does not depend on the order of the reports |
| Coordinator.MergedInEverySchedule | pkg/benchmark/coordinator.go:498-565 | all successful calls on the same reports, whatever the schedules of the set-up and of the run, merge one report from each worker and to the same report |
| Coordinator.Produce | pkg/benchmark/benchmark.go:290-299 | watched for any number of rounds, the loop has ended if and only if it is at its request limit or its time is up, and neither was the case after any round before |
| Coordinator.RoundsIff | pkg/benchmark/benchmark.go:290-299 | the loop makes r rounds if and only if one of its limits is reached after r rounds and none before: whichever comes first |
| Coordinator.RoundsNoneIff | pkg/benchmark/benchmark.go:290-299 | it never stops if and only if it has no request limit and its time is never up |
| Coordinator.TimeEndsFirst | pkg/benchmark/benchmark.go:292 | a thousand requests under a time limit that passes after five rounds end after five, and three end after three |
| Coordinator.StopsIff | pkg/benchmark/benchmark.go:290-299 | the producer stops if and only if it has a request limit or a duration that passes |
| Coordinator.UnboundedIff | pkg/benchmark/coordinator.go:520-531 | for every number of requests, negative ones included, and no time limit: some producer never stops if and only if the quotient is a multiple of 2^32, as for fewer requests than workers |
| Coordinator.SplitIff | pkg/benchmark/coordinator.go:520-531 | for every number of requests, negative ones included, and no time limit: all workers together make the requests less the remainder if and only if there are at least as many requests as workers and the quotient is below 2^32 |
| Coordinator.SplitFails | pkg/benchmark/coordinator.go:520-531 | inputs that fail each condition: one request for two workers, 2^32 + 1 requests for one, and a negative number |
| Coordinator.BenchmarkTotals | pkg/benchmark/coordinator.go:498-565 | split, producers, pipelines, join and merge: with no time limit, at least as many requests as workers and a quotient below 2^32, every aggregator receives its worker's share and every successful call reports the requests less the remainder, as a uint32 |
| Coordinator.BenchmarkNeverReturns | pkg/benchmark/coordinator.go:498-565 | with no time limit and a quotient that is a multiple of 2^32, the call returns in no schedule |
| RoleBinding.StepKeepsInv | pkg/cluster/cluster.go:239-279 | every step of every call keeps the invariant: a snapshot with the current version has the current contents |
| RoleBinding.WriteDecides | pkg/cluster/cluster.go:262-278 | an accepted write stores one more subject and the call succeeds; any other changes nothing and the call starts over |
| RoleBinding.NoLostUpdate | pkg/cluster/cluster.go:239-279 | in every interleaving the subjects are what was there and then one for each applied write; every call that succeeded is among them |
| RoleBinding.EverybodyEnters | pkg/cluster/cluster.go:239-279 | as long as the server answers, a run that cannot go on has entered every cluster exactly once, behind what was there |
| RoleBinding.RetryBound | pkg/cluster/cluster.go:262-277 | a call starts over at most once for each write of another cluster, so at most n - 1 times |
| RoleBinding.CallsTerminate | pkg/cluster/cluster.go:239-279 | n calls together take at most n (n + 1) steps in every interleaving |
| RoleBinding.BoundAttained | pkg/cluster/cluster.go:239-279 | for every n, some interleaving takes exactly n (n + 1) steps |
| RoleBinding.StuckIffFinished | pkg/cluster/cluster.go:239-279 | nothing can move if and only if every call has returned |
| FanIn.StepKeepsInv | pkg/onit/setup/setup.go:174-213 | every step keeps the invariant: nothing is sent on a closed channel, and an error sent stays until one is taken |
| FanIn.Progress | pkg/benchmark/coordinator.go:99-136 | if the join completes at all, some goroutine can take a step until the caller has returned |
| FanIn.StepDecreases | pkg/benchmark/coordinator.go:510-540 | every step brings the end nearer |
| FanIn.JoinCompletes | pkg/benchmark/coordinator.go:510-540 | for every join, in every schedule the run is finite, success means that every task succeeded and every result is there once, and an error is one a task returned |
| FanIn.FirstErrorReturned | pkg/benchmark/coordinator.go:107-127 | the error a caller returns is the first one sent, and the results it collects are in the order in which they were sent |
| FanIn.NothingBeforePrelude | pkg/onit/setup/setup.go:174-191 | no task starts before the Atomix set-up has succeeded |
| FanIn.NeverReturns | pkg/benchmark/coordinator.go:385-406 | a join returns in no schedule if the caller waits first and a task hangs or the errors have no room, or if it reads at once and a task hangs and none fails |
| FanIn.CallersComplete | pkg/benchmark/coordinator.go:99-136 | exactly when the join of the cluster set-up, of all suites, of a benchmark run and of a set-up completes, by how their tasks end |
| FanIn.SetupWorkersIff | pkg/benchmark/coordinator.go:379-439 | in every schedule a set-up of workers returns nil if all workers succeed, and never returns otherwise |
| FanIn.OneFailing | pkg/benchmark/coordinator.go:379-407 | one worker that fails its set-up: after four steps nothing can move and the caller has not returned |
| FanIn.RunWorkersIff | pkg/benchmark/coordinator.go:99-136 | in every schedule the run of all suites returns if all suites end or one fails, never otherwise, and without an error exactly if all succeed |
| FanIn.BenchmarkReturnsIff | pkg/benchmark/coordinator.go:498-540 | a whole benchmark run, set-up join and run join: in every schedule it returns honestly if dialling fails or all workers set up and answer, and in no schedule otherwise |
| WorkerPool.StepKeepsInv | pkg/onit/env/simulators.go:49-92 | every step keeps the invariant: nothing is sent on a closed channel, and every set-up is in exactly one place |
| WorkerPool.Progress | pkg/onit/env/simulators.go:49-92 | until the caller has returned, some goroutine can take a step |
| WorkerPool.StepDecreases | pkg/onit/env/simulators.go:49-92 | every step brings the end nearer |
| WorkerPool.AddAllReturns | pkg/onit/env/simulators.go:49-92 | for any number of set-ups and every schedule the call returns: an error of a set-up that failed, or, only if all succeeded, every simulator exactly once |
| WorkerPool.FirstInFirstOut | pkg/onit/env/simulators.go:53-91 | ten workers take set-ups in the order given off a queue of ten, and the simulators returned are in the order in which they were sent |
| EnvMap.SplitMap | pkg/util/env.go:26-37 | a key has a value if and only if a piece is `key=value`, the key without `=`, and no later piece gives the key a value |
| EnvMap.JoinSplit | pkg/util/env.go:26-28 | the pieces of a text are what commas join to it |
| EnvMap.NothingWithoutEquals | pkg/util/env.go:29-35 | a text without `=` has no entries, whatever commas it has |
| EnvMap.EqualsMissing | pkg/util/env.go:29-35 | pieces without `=` are passed over wherever they stand |
| EnvMap.JoinMap | pkg/util/env.go:40-46 | in whichever order the map is walked, the pieces joined by commas |
| EnvMap.TwoJoined | pkg/util/env.go:40-46 | two entries, joined, character for character |
| EnvMap.RoundTripIff | pkg/util/env.go:26-46 | in every order a map survives join and split if and only if no key has a separator and no value a comma |
| EnvMap.CommaCuts | pkg/util/env.go:26-46 | a comma in a value makes an entry of what follows it |
| EnvMap.ListCut | pkg/util/env.go:26-46 | an argument `nodes` with value `1,2` comes back as `1` |
| EnvMap.ParsedClean | pkg/util/env.go:26-37 | whatever is parsed is such a map |
| EnvMap.ParsedAppend | pkg/util/env.go:26-37 | two texts joined by a comma parse to the first map overridden by the second |
| Config.AtoiPrint | pkg/benchmark/config.go:66-77 | every 64-bit number reads back as it was printed |
| Config.PrintIsNumeral | pkg/benchmark/config.go:127-131 | a number is printed as its decimal numeral: a minus sign exactly if it is negative, digits, and no zero in front of others |
| Config.NumeralUnique | pkg/benchmark/config.go:127-131 | a number has one decimal numeral |
| Config.SomeNumerals | pkg/benchmark/config.go:127-131 | four numerals, character for character |
| Config.AtoiIff | pkg/benchmark/config.go:66-77 | reading accepts an optional sign and digits whose number fits in 64 bits, and nothing else |
| Config.BenchmarkConfig.ToEnv | pkg/benchmark/config.go:120-135 | the configuration's own map is overwritten: ten variables by name, four of them decimal numerals, a missing duration leaves the old one, all others stay, and a nil map fails |
| Config.WrittenIs | pkg/benchmark/config.go:120-135 | what each of the ten variables holds, by its name in full, and that no other changes |
| Config.WrittenReads | pkg/benchmark/config.go:120-135 | what each of the ten variables holds afterwards |
| Config.OthersKept | pkg/benchmark/config.go:120-135 | the other variables of the map are left alone |
| Config.ReadsIff | pkg/benchmark/config.go:66-87 | settings can be read if and only if the three numbers are numbers, and the duration if there is one |
| Config.SettingsRoundTrip | pkg/benchmark/config.go:52-135 | under defaults that were themselves read from the environment: settings come back, arguments over the defaults, if and only if no stale duration is in the map and the arguments are clean |
| Config.SettingsRoundTripIff | pkg/benchmark/config.go:52-135 | settings come back under all defaults if and only if no duration is stale and the arguments are clean |
| Config.StaleTakesOver | pkg/benchmark/config.go:79-87 | a stale duration is read back in place of none, or stops the reader |
| Config.FiveLeftOver | pkg/benchmark/config.go:130-132 | a duration of five left in the map limits a benchmark that had no limit |
| Config.FirstHopIff | pkg/onit/cli/benchmark.go:74-94 | from a map with nothing but the cluster's arguments, settings come back if and only if the arguments are clean |
| Config.ReadIsClean | pkg/benchmark/config.go:52-101 | settings that were read have no stale duration in the environment they were read from, and clean arguments |
| Config.NextHop | pkg/benchmark/coordinator.go:70-82 | settings that were read, under another name, image or suite, are written over that environment and read back as they are |
| Config.HopsLossless | pkg/benchmark/config.go:52-135 | settings read once are read the same after any number of hops |
| Config.RoundTrip | pkg/benchmark/config.go:52-135 | the same through the object and its map, for all settings and all maps; a nil map fails |

## Left out

- Kubernetes resources, pods, services, RBAC rules, port forwards, CLI, logging, certificates and
  readiness polling: calls into client libraries.
- gRPC stubs, descriptors, `XXX_` methods and the zig-zag size functions, which the messages do not
  call.
- `SuiteResponse`, `BenchmarkResponse`, `SimulationResponse`: they have no fields.
- The simulation messages as classes: their generated code has the shape of the benchmark messages,
  so their schemas are put through the same laws.
- `MarshalTo`: the same writer on a prefix of a longer slice.
- The duration payload: an encode function and a decode function that undoes it. Its encoder's error
  is not part of this model. Any pair that satisfies `Valid` will do.
- Cursors as 64-bit integers: they are unbounded, so the checks for a negative sum never fire.
  Messages whose encoding has 2^63 bytes or more are excluded; no Go slice is that long.
- The payload decoder's target when it fails: it is taken to leave its target alone, as the library
  builds its result first.
- A nil argument map and an empty one: they are one value.
- Wall-clock time, the warm-up, throughput and floating point: durations are given natural numbers,
  averages truncate, and a clock is any function from rounds to elapsed time.
- Overflow of a sum of durations.
- `sort.Slice`: it is taken to give a sorted list with the same entries.
- Config.SettingsRoundTrip: defaults set by a program and with separators in them, together with
  arguments that have them too, are left to `SettingsRoundTripIff`.
- Coordinator.Merge: one report or more; with no workers the original divides zero by zero in
  floating point.
- Set-ups of simulators that never end: `AddAll` is modelled on set-ups that all do.
- The set-up of a suite, the creation of workers and dialling inside a suite: a suite succeeds, fails or
  hangs as a whole where all suites are run.
- Closing two channels one after the other is one step, and waiting for a group is waiting until all
  its tasks are done.
- Goroutines left waiting after the caller returned early: the claims are about the caller.
- The exit codes of `runWorkers`: a code that is not zero ends the process.
- The error variable shared by the goroutines of `setupWorkers` and `setupBenchmark`: each has its
  own here.
- Environment maps shared by suites that run at the same time.
- Writers of the binding outside onos-test, and its deletion. Subjects are numbers, one a cluster.
- The splitting of `os.Environ`: the environment is given as a map. The `Env` field of the
  configuration read back is that map, and `Timeout` does not travel.
- Strings of the environment are sequences of characters; separators are single ASCII characters.
