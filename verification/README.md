# The Protocol Buffers codec of the business and monitor API groups

The `business` and `monitor` API groups store and send their objects with
generated Protocol Buffers code: an encoder that fills a buffer from its end, a
size calculator that must agree with it to the byte, a decoder that is an
independent forward loop over tags, and a routine that skips unknown records,
groups included. This project models that code for `MetricQueryCondition`,
`MetricQuery`, `Metric`, `HardQuantity` (and `UsedQuantity`, the same code under
another name), `ProjectSpec` and `ProjectStatus`, together with the defaulting of
the last two, and proves how the parts fit together.

## How it is built

- `Wrappers`: outcomes and optional values. `Bits`, `Varint`: fixed-width arithmetic over mathematical integers, and the
  varint loops. `Written(before, now, i, end, x)` says that a backwards write has
  put `x` just below index `end`, down to index `i`, and touched nothing else;
  every encoder method is specified with it.
- `Wire`: a datatype of wire records (varint, fixed, length-delimited, groups
  nested to any depth, over-long varints kept as they are), and `skipGenerated`
  proved to accept exactly those records.
- `Decoder`: the tag-dispatching loop once for all messages. A *schema* says what
  each field number does; `Decode` is the loop over the bytes, `Fold` the meaning
  of a list of records. The theorems here (refinement of the grammar,
  concatenation, transparency of unknown fields, truncation, totality) hold for
  every schema that is *local* (a field's effect depends on its payload only) or
  merely *stable* (a success does not depend on what follows the bytes consumed);
  totality needs a *quiet* one (no field panics). Messages without maps are local.
  Messages with maps are stable only: the
  generated entry loop checks key and value lengths against the end of the whole
  message and not of the entry.
- `Fields`, `Reading`: the writing and reading steps that all messages share.
- `Query`, `MetricQueryCodec`, `Metrics`, `MetricCodec`: the `monitor` messages.
  The first and third hold values and theorems, the others the classes whose
  methods follow the generated ones.
- `Keys`, `MapField`, `MapLoops`: sorted keys, map entries, and the loops that
  size, write and read them.
- `Project`, `HardQuantityCodec`, `Clusters`, `ProjectCodec`: the `business`
  messages, maps of messages that hold maps.
- `Meanings`: what each field of each message does to the message, byte for byte,
  in terms of literal updates and of the decoder of the nested message, its failure
  included.
- `Defaults`: what defaulting computes, and what `SetDefaults_ProjectSpec` and `SetDefaults_ProjectStatus`
  repair after a round trip through storage.
- `MapLimits`: exactly when decoding a message with a map panics, at any position
  of its bytes, and a check on the bytes alone that rules it out.
- `MapPositions`: exactly what moving the bytes of such a message does.
- `MapBoundaries`: exactly what an unknown record inserted in such a message does:
  after a prefix that decodes, after entries that end where they say, and after an
  entry whose last key or value runs off its end.
- `MapErrors`: exactly when such a decoding is an error return, in terms of the
  nested decoder.
- `Examples`: concrete bytes for each of these limits, for the order of keys, and
  for malformed nested values.

Each class method is proved against the specification functions (`EncQuery`,
`Decode(QuerySchema, ..)` and so on); the main results are lemmas about those
functions. A slice or map that may be nil is a `Nilable`; a pointer field is an
`Option`. Outcomes of decoding are `Ok`, `Err` (an error return) and `Panic` (a
run-time panic).

## Findings

- Decoding is total for `MetricQueryCondition`, `MetricQuery` and `skipGenerated` on
  non-empty input, and for `Metric` if the decoder of its metadata is. That decoder
  and the one of quantities are not in the repository. They are arbitrary functions
  of the bytes that may succeed, fail or panic; where a result needs them not to
  panic, it says so (`MetaQuiet`, `DecodesQuietly`).
- Decoding is not total for messages with maps. The skip inside a map entry
  (`api/business/v1/generated.pb.go:2844-2857`) does not test its sum for overflow,
  unlike the top-level default branch (2861-2876). `Examples.HardPanicExample`
  gives twelve bytes that make it panic, whatever the decoder of quantities.
  `MapLimits.HardPanics`, `SpecPanics` and `StatusPanics` say exactly which inputs
  do: those in which the loop arrives at a skipped record whose end is past the
  largest int, or at a quantity whose decoder panics. `HardSafe`, `SpecSafe` and
  `StatusSafe` give a condition on the bytes alone that leaves the second case only.
- Unknown fields are transparent at every record boundary of `MetricQuery`, errors
  included. In messages with maps they are not. Moving bytes up can turn an error
  return into a panic, because the end of a skipped record can cross the largest
  int; `Examples.InsertionPanics` has fourteen bytes for it, the first two being
  the inserted record. `MapBoundaries.Inserted` says exactly when, for any prefix
  that decodes, and that nothing else changes; `InsertedConfined` says so for any
  records whose entries end where they say, whether they decode or not. That is the
  test the source lacks at lines 2808 and 2836: it compares keys and values with
  the end of the message. Without it the last key or value of an entry takes the
  bytes it lacks from whatever follows, so an inserted record becomes part of the
  map (`MapBoundaries.RunsOffDecodes`, `KeyGuardExact`, `KeyInserted`,
  `ValueGuardExact`, `Examples.InsertionsDiffer`). `MapBoundaries.Unnoticed` is
  a condition on the bytes alone under which an insertion changes nothing.
- Round trips identify nil with empty slices and maps. For defaulted project
  objects the defaults restore everything but `Finalizers` and the inner maps,
  which come back up to nil against empty and up to the normal form of quantities.
  A value and what it is read back as are written alike, byte for byte, if a
  quantity and its normal form are.

## Model

| member | source | states |
|---|---|---|
| Bits.OrShl | api/monitor/v1/generated.pb.go:1415-1428 | one turn of a shift-or loop of any width keeps exactly the low bits of the value collected, whatever is shifted out |
| Varint.EncodeVarint | api/monitor/v1/generated.pb.go:557-567 | writes the shortest varint just below the offset and leaves every other byte of the buffer unchanged |
| Varint.SovExact | api/business/v1/generated.pb.go:1926-1928 | the closed form for the size is the number of bytes the loop writes, between 1 and 10 |
| Varint.VarintInverse | api/business/v1/generated.pb.go:1571-1581 | reading what was written, whatever follows it, gives the value back and consumes exactly those bytes |
| Varint.ReadVarintExact | api/business/v1/generated.pb.go:2248-2261 | every varint of at most ten bytes, over-long ones included, is read to its value modulo 2^64 and to its last byte |
| Varint.ReadVarintSplits | api/business/v1/generated.pb.go:2248-2261 | conversely, what is read is such a varint, and a failure means that no prefix is one |
| Varint.ReadUint64 | api/monitor/v1/generated.pb.go:1415-1428 | the shift-or loop gives the value modulo 2^64, an error if no varint starts there, and a panic exactly at a negative index |
| Varint.ReadInt64 | api/monitor/v1/generated.pb.go:1474-1489 | the int64 loop keeps all 64 bits as two's complement |
| Varint.ReadInt32 | api/monitor/v1/generated.pb.go:1676-1690 | the int32 loop keeps exactly the low 32 bits as two's complement, groups shifted out included |
| Varint.NegativeTakesTenBytes | api/monitor/v1/generated.pb.go:453-456 | every negative int32 or int64 is encoded in ten bytes |
| Varint.SignedRoundTrip | api/monitor/v1/generated.pb.go:667-668 | sign extension adds 2^64 to a negative value, and followed by either signed reading is the identity |
| Wire.Skip | api/business/v1/generated.pb.go:5494-5598 | the panic is reached exactly on empty input, and a result moves forward or is a wrapped negative index |
| Wire.SkipGenerated | api/monitor/v1/generated.pb.go:1883-1987 | the loop and its recursion on sub-slices terminate and compute Skip |
| Wire.SkipGroupItems | api/monitor/v1/generated.pb.go:1945-1976 | the group loop reads items until an end-group tag, wrapped and out-of-range indices included |
| Wire.SkipVarint | api/monitor/v1/generated.pb.go:1904-1917 | the scan over a varint ends where reading it would end |
| Wire.SkipExact | api/business/v1/generated.pb.go:5494-5598 | every well-formed record, groups nested to any depth, is skipped to its last byte whatever follows |
| Wire.SkipParses | api/business/v1/generated.pb.go:5494-5598 | whatever is skipped within the input is a well-formed record |
| Wire.SkipIffRecord | api/business/v1/generated.pb.go:5494-5598 | skip returns n on s if and only if the first n bytes of s are a well-formed record |
| Wire.RecordUnique | api/business/v1/generated.pb.go:5494-5598 | the record grammar is unambiguous |
| Reading.ReadTag | api/monitor/v1/generated.pb.go:1414-1436 | reads field number and wire type, refusing end-group tags and non-positive field numbers |
| Reading.ReadBounds | api/monitor/v1/generated.pb.go:1442-1467 | accepts a length prefix exactly when the payload lies inside the slice, with wrapping additions |
| Reading.SkipUnknown | api/monitor/v1/generated.pb.go:1710-1725 | the default branch moves to the end of the skipped record or fails |
| Reading.Turn | api/monitor/v1/generated.pb.go:1412-1727 | one turn of the loop at an index of the slice, in all its outcomes, against decoding the rest of the slice |
| Decoder.DecodeOne | api/monitor/v1/generated.pb.go:1412-1727 | an accepted turn advances by at least one byte and stays inside the slice |
| Decoder.DecodeOneRecord | api/monitor/v1/generated.pb.go:1412-1727 | a record with a meaning is decoded to that meaning and to its last byte, whatever follows |
| Decoder.DecodeRecords | api/monitor/v1/generated.pb.go:1409-1733 | the encoding of a list of records is decoded to the left fold of their meanings |
| Decoder.DecodeIsFold | api/business/v1/generated.pb.go:4671-5012 | for every message, maps included, decoding well-formed records is the fold in which each record sees its position and what follows it, errors and panics included |
| Decoder.DecodeRefinesRecords | api/business/v1/generated.pb.go:4671-5012 | for every message, maps included, success exactly on the byte strings that split into well-formed records whose fold in place succeeds, with its result |
| Decoder.DecodeParses | api/monitor/v1/generated.pb.go:1409-1733 | whatever a decoder without maps accepts splits into well-formed records whose fold is the result |
| Decoder.DecodeRefinesGrammar | api/monitor/v1/generated.pb.go:1409-1733 | success with a message if and only if such a splitting with that fold exists |
| Decoder.RecordsUnique | api/monitor/v1/generated.pb.go:1409-1733 | the splitting is unique |
| Decoder.DecodeTotal | api/monitor/v1/generated.pb.go:1409-1733 | decoding never panics when no field does, as in every map-free message of the repository itself |
| Decoder.DecodeShift | api/monitor/v1/generated.pb.go:1409-1733 | decoding a message without maps does not depend on where the bytes lie |
| Decoder.DecodeConcat | api/monitor/v1/generated.pb.go:1409-1733 | concatenation is merge: after a successful prefix decoding goes on from the message reached, with or without maps |
| Decoder.UnknownTransparent | api/monitor/v1/generated.pb.go:1710-1726 | after any prefix that decodes, an inserted unknown record only moves what follows, and every successful result is kept |
| Decoder.UnknownTransparentLocal | api/monitor/v1/generated.pb.go:1710-1726 | without maps, inserted at any record boundary it changes nothing, errors included |
| Decoder.UnknownInserted | api/business/v1/generated.pb.go:4989-5005 | inserted between two records of an encoding it leaves the fold of the encoding as the result |
| Decoder.TruncationDetected | api/monitor/v1/generated.pb.go:1409-1733 | a prefix of an encoding decodes if and only if the cut falls between two records, and is an error return otherwise |
| Decoder.CutRecordFails | api/monitor/v1/generated.pb.go:1409-1733 | a record cut anywhere is an error return, whatever its field |
| Decoder.DecodeRecordsThen | api/monitor/v1/generated.pb.go:1409-1733 | without maps, records with errors included, decoding records followed by any bytes is their fold followed by the bytes |
| Decoder.MisfitFails | api/monitor/v1/generated.pb.go:1430-1446 | an end-group tag, a field number that is not positive or a wire type other than the field's is an error return, in every message |
| Decoder.DecodeStops | api/monitor/v1/generated.pb.go:1409-1733 | without maps, decoding ends at the first record that fails or panics, whatever follows |
| Fields.PutHeader | api/monitor/v1/generated.pb.go:463-465 | a varint and its tag are put just below what is already written |
| Fields.PutBytes | api/monitor/v1/generated.pb.go:468-472 | copy, length and tag put exactly the record of the field below what is already written |
| Fields.PutNum | api/monitor/v1/generated.pb.go:453-455 | the same for a varint field |
| Fields.PutStrs | api/monitor/v1/generated.pb.go:459-467 | the backwards loop puts the records of all elements in their order |
| Fields.SizeStrs | api/monitor/v1/generated.pb.go:645-650 | the sum over the elements is the number of bytes PutStrs writes |
| MetricQueryCodec.MetricQueryCondition.Size | api/monitor/v1/generated.pb.go:672-685 | Size is the length of the encoding |
| MetricQueryCodec.MetricQueryCondition.MarshalToSizedBuffer | api/monitor/v1/generated.pb.go:534-555 | in any large enough buffer the encoding is written at its end and nothing else changes |
| MetricQueryCodec.MetricQueryCondition.Marshal | api/monitor/v1/generated.pb.go:519-527 | the buffer of Size bytes is filled exactly and is the encoding |
| MetricQueryCodec.MetricQueryCondition.Unmarshal | api/monitor/v1/generated.pb.go:1734-1882 | for every byte string the loop ends as decoding with the condition's schema says, never out of range |
| MetricQueryCodec.MetricQuery.Size | api/monitor/v1/generated.pb.go:631-670 | Size is the length of the encoding, nested conditions and optional fields included |
| MetricQueryCodec.MetricQuery.MarshalToSizedBuffer | api/monitor/v1/generated.pb.go:448-517 | in any large enough buffer the encoding is written at its end and nothing else changes |
| MetricQueryCodec.MetricQuery.Marshal | api/monitor/v1/generated.pb.go:433-441 | the buffer of Size bytes is filled exactly and is the encoding |
| MetricQueryCodec.MetricQuery.Unmarshal | api/monitor/v1/generated.pb.go:1409-1733 | for every byte string and starting object the loop ends as decoding with the query's schema says |
| MetricQueryCodec.MetricQuery.Field | api/monitor/v1/generated.pb.go:1437-1726 | the switch on the field number, in all its outcomes |
| MetricQueryCodec.PutConditions | api/monitor/v1/generated.pb.go:478-491 | nested messages marshalled in place, last first, form the records of the list |
| MetricQueryCodec.SizeConditions | api/monitor/v1/generated.pb.go:651-656 | the sum over the nested sizes is the number of bytes PutConditions writes |
| Query.ConditionRoundTrip | api/monitor/v1/generated.pb.go:534-555 | an encoded condition decodes to itself whatever the starting message |
| Query.QueryMerges | api/monitor/v1/generated.pb.go:1409-1733 | decoding an encoded query into any message: scalars last-wins, absent times kept, lists appended |
| Query.QueryRoundTrip | api/monitor/v1/generated.pb.go:448-517 | every query, negative times, limits and offsets included, comes back with empty slices as nil |
| Query.QueryReadsOn | api/monitor/v1/generated.pb.go:1409-1733 | decoding a + b is decoding b into the result of a, for all bytes |
| Query.QueryConcat | api/monitor/v1/generated.pb.go:1409-1733 | two encodings read as one are merged |
| Query.QueryNormEncodes | api/monitor/v1/generated.pb.go:448-517 | a query and what it is read back as are written alike |
| Query.QueryEncodingInjective | api/monitor/v1/generated.pb.go:448-517 | encodings are equal if and only if the queries are equal up to nil against empty |
| Query.QueryRefinesGrammar | api/monitor/v1/generated.pb.go:1409-1733 | success exactly on the byte strings that split into records of the schema, with their fold as result; a splitting with an undecodable condition is an error return; never a panic |
| Query.QueryWithoutCondition | api/monitor/v1/generated.pb.go:1569-1574 | records that split the input and contain an undecodable condition anywhere are an error return |
| Query.ConditionRefinesGrammar | api/monitor/v1/generated.pb.go:1734-1882 | the same for conditions |
| Query.QueryTruncation | api/monitor/v1/generated.pb.go:1409-1733 | a strict prefix of an encoded query decodes only when cut between records; any other cut is an error |
| Query.QueryUnknownTransparent | api/monitor/v1/generated.pb.go:1710-1726 | an unknown record at any record boundary leaves the outcome as it was, errors included |
| Meanings.ConditionField | api/monitor/v1/generated.pb.go:1763-1858 | each string field of a condition replaces that field and no other |
| Meanings.QueryText | api/monitor/v1/generated.pb.go:1438-1671 | each string field of a query is replaced or appended to, and no other field changes |
| Meanings.QueryNumber | api/monitor/v1/generated.pb.go:1470-1509 | times are the 64 bits, limit and offset the low 32 bits of the varint as two's complement, the last one winning |
| Meanings.QueryCondition | api/monitor/v1/generated.pb.go:1542-1575 | a nested condition is decoded from the empty one and appended; if it does not decode, the query is an error return |
| Meanings.ConditionAdded | api/monitor/v1/generated.pb.go:1542-1575 | the record means a query if and only if its payload decodes, and then the one with that condition appended; otherwise an error |
| Metrics.MetricMerges | api/monitor/v1/generated.pb.go:1258-1408 | decoding an encoded metric into a message merges the nested query and hands the metadata to its own decoder |
| Metrics.MetricRoundTrip | api/monitor/v1/generated.pb.go:400-430 | every metric comes back, given that the metadata codec does |
| Metrics.QueryFieldsMerge | api/monitor/v1/generated.pb.go:1320-1352 | two Query fields in a row mean what one field with both payloads means |
| Metrics.MetricRefinesGrammar | api/monitor/v1/generated.pb.go:1258-1408 | success exactly on lists of records of the schema; and never a panic, if the decoder of the metadata does not panic |
| Metrics.MetricQuiet | api/monitor/v1/generated.pb.go:1258-1408 | the decoder of the metadata is the only field that can panic |
| Meanings.MetricText | api/monitor/v1/generated.pb.go:1353-1384 | the result string is replaced and nothing else |
| Meanings.MetricMeta | api/monitor/v1/generated.pb.go:1287-1319 | the metadata is decoded into the one already there, and its failure or panic is the outcome |
| Meanings.MetricNested | api/monitor/v1/generated.pb.go:1320-1352 | the query is decoded into the one already there, and its error is the outcome |
| Meanings.MetricStops | api/monitor/v1/generated.pb.go:1258-1408 | such a failure after any records that decode is the outcome whatever follows |
| MetricCodec.Metric.Size | api/monitor/v1/generated.pb.go:616-629 | Size is the length of the encoding |
| MetricCodec.Metric.MarshalToSizedBuffer | api/monitor/v1/generated.pb.go:400-430 | in any large enough buffer the encoding is written at its end and nothing else changes |
| MetricCodec.Metric.Marshal | api/monitor/v1/generated.pb.go:385-393 | the buffer of Size bytes is filled exactly and is the encoding |
| MetricCodec.Metric.Unmarshal | api/monitor/v1/generated.pb.go:1258-1408 | for every byte string and starting object the loop ends as decoding with the metric's schema says |
| Keys.SortStrings | api/business/v1/generated.pb.go:772 | distinct keys are put into the order of Go strings: a proper prefix first, otherwise by the first byte that differs |
| Keys.SortedKeys | api/business/v1/generated.pb.go:768-772 | the same for the keys of a map, whatever the order in which the range yields them |
| Keys.LessIsPrecedes | api/business/v1/generated.pb.go:772 | the order of the keys is that of Go strings, both ways: a proper prefix, or a smaller byte where the two first differ |
| Keys.KeyOrderUnique | api/business/v1/generated.pb.go:772 | there is only one ascending order, so an encoding is a function of the map's value |
| MapField.ItemAt | api/business/v1/generated.pb.go:2766-2858 | a key, value or skipped record found in an entry moves the index forward inside the slice |
| MapField.DecodeEntryExact | api/business/v1/generated.pb.go:2764-2858 | an entry as the encoder writes it, around any bytes for the value and before any bytes, is its key and the decoded value, or the failure or panic of the value |
| MapField.DecodeEntryStable | api/business/v1/generated.pb.go:2764-2858 | an entry that has been read is read alike when more bytes follow or it lies elsewhere |
| MapField.FoldEntries | api/business/v1/generated.pb.go:2732-2860 | the entries of a map, in any order of its keys, put exactly that map |
| MapLoops.SizeAnyOrder | api/business/v1/generated.pb.go:1637-1643 | the sum is the same for every order of the keys |
| MapLoops.SizeEntry | api/business/v1/generated.pb.go:1640-1642 | the entry size formula counts the bytes of the entry record |
| MapLoops.PutEntryHead | api/business/v1/generated.pb.go:782-793 | around a value already written, the value header, the key and the entry header make the entry record |
| MapLoops.NextItem | api/business/v1/generated.pb.go:2766-2858 | one turn of the entry loop, with a negative index met as an out-of-range read |
| MapLoops.SkipInEntry | api/business/v1/generated.pb.go:2844-2857 | the skip in an entry compares the wrapped sum, so an overflow goes through as a negative index |
| HardQuantityCodec.HardQuantity.Size | api/business/v1/generated.pb.go:1630-1646 | for every iteration order, the length of the encoding |
| HardQuantityCodec.HardQuantity.MarshalToSizedBuffer | api/business/v1/generated.pb.go:762-797 | the encoding, in key order, is written at the end of the buffer and nothing else changes |
| HardQuantityCodec.HardQuantity.Marshal | api/business/v1/generated.pb.go:747-755 | the buffer of Size bytes is filled exactly and is the encoding |
| HardQuantityCodec.HardQuantity.ReadEntry | api/business/v1/generated.pb.go:2764-2858 | the entry loop ends as reading the entry says, panics of the loop and of the quantity decoder included |
| HardQuantityCodec.HardQuantity.Unmarshal | api/business/v1/generated.pb.go:2703-2884 | for every byte string the loop ends as decoding with the schema says, panics included |
| Project.HardAnyOrder | api/business/v1/generated.pb.go:2732-2860 | any order of the entries of a map decodes to the union with the map already there |
| Project.HardRoundTrip | api/business/v1/generated.pb.go:762-797 | a map of quantities comes back, given only that quantities do up to a normal form |
| Meanings.HardEntry | api/business/v1/generated.pb.go:2732-2860 | an entry with any bytes for the value stores the decoded quantity under its key, or ends in the failure or panic of the quantity decoder |
| Meanings.HardDecoderIs | api/business/v1/generated.pb.go:4966-4970 | a cluster value is decoded by the decoder of HardQuantity from the empty one |
| Project.SpecReadsAnyOrder | api/business/v1/generated.pb.go:4860-4988 | any order of the cluster entries of a spec decodes to the same map of maps |
| Project.StatusReadsAnyOrder | api/business/v1/generated.pb.go:5095-5223 | the same for a status |
| Project.SpecMerges | api/business/v1/generated.pb.go:4671-5012 | decoding an encoded spec into any message: strings replaced, lists appended, clusters united |
| Project.SpecRoundTrip | api/business/v1/generated.pb.go:1364-1432 | every spec comes back up to nil against empty and the normal form of quantities, maps of messages of maps included |
| Project.SpecNormEncodes | api/business/v1/generated.pb.go:1364-1432 | a value and what it is read back as are written alike, given that quantities are |
| Project.SpecEncodingInjective | api/business/v1/generated.pb.go:1364-1432 | equal encodings come from specs with equal normal forms; and only those, given that quantities are written like their normal forms |
| Project.SpecTruncation | api/business/v1/generated.pb.go:4671-5012 | a prefix of an encoded spec decodes if and only if the cut falls between two records, and is an error return, not a panic, otherwise |
| Project.SpecConcat | api/business/v1/generated.pb.go:4671-5012 | two encodings read as one are merged |
| Project.SpecUnknownTransparent | api/business/v1/generated.pb.go:4989-5005 | an unknown record between any two records of an encoding changes nothing |
| Meanings.SpecText | api/business/v1/generated.pb.go:4700-4859 | each string field of a spec is replaced or appended to, and no other field changes |
| Meanings.SpecCluster | api/business/v1/generated.pb.go:4860-4988 | a cluster with any bytes for the value stores what HardQuantity decodes from them, and nothing if it does not decode: that error or panic is the outcome |
| Project.StatusMerges | api/business/v1/generated.pb.go:5013-5311 | decoding an encoded status into any message: phase replaced, an absent Locked kept, lists appended, clusters united |
| Project.StatusRoundTrip | api/business/v1/generated.pb.go:1449-1517 | every status comes back up to nil against empty and the normal form of quantities |
| Project.StatusNormEncodes | api/business/v1/generated.pb.go:1449-1517 | a value and what it is read back as are written alike, given that quantities are |
| Project.StatusEncodingInjective | api/business/v1/generated.pb.go:1449-1517 | equal encodings come from statuses with equal normal forms; and only those, given that quantities are written like their normal forms |
| Project.StatusTruncation | api/business/v1/generated.pb.go:5013-5311 | a prefix of an encoded status decodes if and only if the cut falls between two records, and is an error return, not a panic, otherwise |
| Project.StatusConcat | api/business/v1/generated.pb.go:5013-5311 | two encodings read as one are merged |
| Project.StatusUnknownTransparent | api/business/v1/generated.pb.go:5288-5304 | an unknown record between any two records of an encoding changes nothing |
| Meanings.StatusLocked | api/business/v1/generated.pb.go:5042-5062 | the flag is whether the varint is nonzero |
| Meanings.StatusText | api/business/v1/generated.pb.go:5063-5094 | each string field of a status is replaced or appended to, and no other field changes |
| Meanings.StatusCluster | api/business/v1/generated.pb.go:5095-5223 | the same as SpecCluster for a status |
| Meanings.KnownFields | api/business/v1/generated.pb.go:4699-5005 | exactly the field numbers of each message have a meaning |
| Clusters.SizeClusters | api/business/v1/generated.pb.go:1861-1869 | for every iteration order, the number of bytes PutClusters writes |
| Clusters.PutClusters | api/business/v1/generated.pb.go:1369-1398 | nested map messages marshalled in place, last key first, form the records of the map in key order |
| Clusters.ReadCluster | api/business/v1/generated.pb.go:4892-4986 | the entry loop with its nested Unmarshal ends as reading the entry says, panics included |
| ProjectCodec.ProjectSpec.Size | api/business/v1/generated.pb.go:1837-1871 | Size is the length of the encoding |
| ProjectCodec.ProjectSpec.MarshalToSizedBuffer | api/business/v1/generated.pb.go:1364-1432 | in any large enough buffer the encoding is written at its end and nothing else changes |
| ProjectCodec.ProjectSpec.Marshal | api/business/v1/generated.pb.go:1349-1357 | the buffer of Size bytes is filled exactly and is the encoding |
| ProjectCodec.ProjectSpec.Unmarshal | api/business/v1/generated.pb.go:4671-5012 | for every byte string and starting object the loop ends as decoding with the spec's schema says |
| ProjectCodec.ProjectSpec.Field | api/business/v1/generated.pb.go:4699-5005 | the switch on the field number, in all its outcomes |
| ProjectCodec.ProjectSpec.SetDefaults | api/business/v1/defaults.go:44-51 | Members and Clusters are kept when set and become empty when nil; every other field is unchanged |
| ProjectCodec.ProjectStatus.Size | api/business/v1/generated.pb.go:1873-1906 | Size is the length of the encoding |
| ProjectCodec.ProjectStatus.MarshalToSizedBuffer | api/business/v1/generated.pb.go:1449-1517 | in any large enough buffer the encoding is written at its end and nothing else changes |
| ProjectCodec.ProjectStatus.Marshal | api/business/v1/generated.pb.go:1434-1442 | the buffer of Size bytes is filled exactly and is the encoding |
| ProjectCodec.ProjectStatus.Unmarshal | api/business/v1/generated.pb.go:5013-5311 | for every byte string and starting object the loop ends as decoding with the status's schema says |
| ProjectCodec.ProjectStatus.Field | api/business/v1/generated.pb.go:5041-5304 | the switch on the field number, in all its outcomes |
| ProjectCodec.ProjectStatus.SetDefaults | api/business/v1/defaults.go:29-42 | a non-empty phase is kept, an empty one becomes Active; lists and clusters are kept when set and become empty when nil; Locked is unchanged |
| ProjectCodec.PutLocked | api/business/v1/generated.pb.go:1506-1515 | a present flag is one byte below its tag, which is its varint record |
| Defaults.SpecDefaults | api/business/v1/defaults.go:44-51 | set lists and maps are kept, nil Members and Clusters become empty, every other field is kept |
| Defaults.StatusDefaults | api/business/v1/defaults.go:29-42 | a non-empty phase is kept and an empty one becomes the six bytes of Active; set lists and maps are kept, nil ones become empty |
| Defaults.SpecFixed | api/business/v1/defaults.go:44-51 | defaulting changes nothing if and only if both defaulted fields are set |
| Defaults.StatusFixed | api/business/v1/defaults.go:29-42 | defaulting changes nothing if and only if all four defaulted fields are set |
| Defaults.SpecDefaultsRepair | api/business/v1/defaults.go:44-51 | default, encode, decode, default gives the defaulted spec back, Finalizers and inner maps up to nil against empty, quantities up to their normal form |
| Defaults.StatusDefaultsRepair | api/business/v1/defaults.go:29-42 | the same for a status, with only the inner maps up to nil against empty and quantities up to their normal form |
| Defaults.StoredSpecEncodes | api/business/v1/defaults.go:44-51 | a spec that went through storage is written like the original |
| Defaults.StoredStatusEncodes | api/business/v1/defaults.go:29-42 | the same for a status |
| Defaults.SpecStoredTwice | api/business/v1/defaults.go:44-51 | a spec that went through storage once is unchanged by going through it again, given that a normal form of quantities is its own normal form |
| Defaults.SpecStorageIdempotent | api/business/v1/defaults.go:44-51 | in particular when normal forms of quantities are written like the originals, with no further bound on the size |
| Defaults.StatusStoredTwice | api/business/v1/defaults.go:29-42 | SpecStoredTwice for a status |
| Defaults.StatusStorageIdempotent | api/business/v1/defaults.go:29-42 | SpecStorageIdempotent for a status |
| MapLimits.EntryPanics | api/business/v1/generated.pb.go:2766-2858 | reading an entry panics if and only if its loop arrives at a skipped record whose end is not an int, or at a value that panics |
| MapLimits.MapPanics | api/business/v1/generated.pb.go:2703-2884 | decoding any message with one map panics if and only if it arrives at an entry that does, at every position of the bytes |
| MapLimits.HardPanics | api/business/v1/generated.pb.go:2703-2884 | decoding panics if and only if the loop arrives at an entry, and there at a skipped record whose end overflows or at a quantity whose decoder panics; only at the former, if that decoder does not panic |
| MapLimits.SpecPanics | api/business/v1/generated.pb.go:4671-5012 | the same for a spec, where either may also be in a nested value |
| MapLimits.StatusPanics | api/business/v1/generated.pb.go:5013-5311 | the same for a status |
| MapLimits.HardSafe | api/business/v1/generated.pb.go:2844-2857 | decoding does not panic when no record that could be skipped at any offset of the bytes ends past the largest int, given a quantity decoder that does not panic |
| MapLimits.SpecSafe | api/business/v1/generated.pb.go:4972-4985 | the same for a spec, nested values included, under the same assumption |
| MapLimits.StatusSafe | api/business/v1/generated.pb.go:5207-5220 | the same for a status, nested values included, under the same assumption |
| MapErrors.EntryErrs | api/business/v1/generated.pb.go:2766-2858 | reading an entry is an error if and only if its loop arrives at something broken or at a value that does not decode |
| MapErrors.MapErrs | api/business/v1/generated.pb.go:2703-2884 | decoding a message with one map is an error if and only if it arrives at such an entry or at another field that fails |
| MapErrors.SpecErrs | api/business/v1/generated.pb.go:4671-5012 | the same for a spec, the value being one that HardQuantity does not decode from the empty quantities |
| MapErrors.StatusErrs | api/business/v1/generated.pb.go:5013-5311 | the same for a status |
| MapErrors.ClusterValueKept | api/business/v1/generated.pb.go:4966-4971 | a value that decodes is the one the entry loop goes on with, the key being kept |
| MapPositions.MapMoved | api/business/v1/generated.pb.go:2844-2857 | moving the bytes up leaves the outcome as it is or turns an error return into a panic, the latter if and only if the loop arrives at a skipped record whose end crosses the largest int |
| MapPositions.HardMoved | api/business/v1/generated.pb.go:2703-2884 | that for HardQuantity |
| MapPositions.SpecMoved | api/business/v1/generated.pb.go:4671-5012 | that for a spec |
| MapPositions.StatusMoved | api/business/v1/generated.pb.go:5013-5311 | that for a status |
| MapBoundaries.Inserted | api/business/v1/generated.pb.go:2861-2876 | an unknown record after a prefix that decodes leaves the outcome as it is or turns an error return into a panic, the latter if and only if a skipped record's end crosses the largest int between the two positions |
| MapBoundaries.DecodeConfinedThen | api/business/v1/generated.pb.go:2766-2858 | records whose entries end where they say, followed by any bytes, are decoded as alone, errors and panics included, and then the bytes |
| MapBoundaries.ConfinedFold | api/business/v1/generated.pb.go:2732-2860 | such records decode exactly when their plain fold succeeds, with its result |
| MapBoundaries.InsertedConfined | api/business/v1/generated.pb.go:2861-2876 | an unknown record after such records, whether or not these decode: the outcome changes exactly when they decode and an end crosses |
| MapBoundaries.Unnoticed | api/business/v1/generated.pb.go:2861-2876 | after such records an unknown record changes nothing when no record that could be skipped at any offset of the rest ends past the largest int |
| MapBoundaries.WrittenConfined | api/business/v1/generated.pb.go:782-793 | an entry as the encoder writes it ends where it says |
| MapBoundaries.EntryRunsOff | api/business/v1/generated.pb.go:2784-2843 | a last key or value that reaches the end of its entry takes exactly the bytes it lacks from what follows, and fails when there are too few |
| MapBoundaries.RunsOffDecodes | api/business/v1/generated.pb.go:2732-2860 | the outcome after such an entry, for all bytes that follow |
| MapBoundaries.KeyGuardExact | api/business/v1/generated.pb.go:2804-2811 | after an entry that ends in a key, an unknown record at the end of the input goes unnoticed if and only if the key ends inside its entry or the record is too short to complete it |
| MapBoundaries.ValueGuardExact | api/business/v1/generated.pb.go:2830-2843 | after an entry that ends in a value, an unknown record at the end of the input goes unnoticed if and only if the value ends inside its entry, or the record is too short to complete it, or the completed value is in error |
| MapBoundaries.KeyInserted | api/business/v1/generated.pb.go:2804-2811 | before enough bytes, decoding goes on from messages that differ if and only if the keys do, unless both keys held the value already |
| MapBoundaries.RunsOffInserted | api/business/v1/generated.pb.go:2732-2860 | the outcome when an unknown record and then any bytes follow such an entry |
| MapBoundaries.ShortInserted | api/business/v1/generated.pb.go:2732-2860 | before too few bytes: an error return without the record, and with it if and only if the two are still too few or what they complete or the rest is in error |
| MapBoundaries.HardInserted | api/business/v1/generated.pb.go:2703-2884 | Inserted for HardQuantity |
| MapBoundaries.HardInsertedConfined | api/business/v1/generated.pb.go:2703-2884 | InsertedConfined for HardQuantity |
| MapBoundaries.HardUnnoticed | api/business/v1/generated.pb.go:2703-2884 | Unnoticed for HardQuantity |
| MapBoundaries.SpecInserted | api/business/v1/generated.pb.go:4671-5012 | Inserted for a spec |
| MapBoundaries.SpecInsertedConfined | api/business/v1/generated.pb.go:4671-5012 | InsertedConfined for a spec |
| MapBoundaries.SpecUnnoticed | api/business/v1/generated.pb.go:4671-5012 | Unnoticed for a spec |
| MapBoundaries.StatusInserted | api/business/v1/generated.pb.go:5013-5311 | Inserted for a status |
| MapBoundaries.StatusInsertedConfined | api/business/v1/generated.pb.go:5013-5311 | InsertedConfined for a status |
| MapBoundaries.StatusUnnoticed | api/business/v1/generated.pb.go:5013-5311 | Unnoticed for a status |
| Examples.LongEntryOutcome | api/business/v1/generated.pb.go:2844-2857 | for a family of twelve-byte inputs, the position alone decides between an error return and a panic |
| Examples.HardPanicExample | api/business/v1/generated.pb.go:2844-2857 | twelve bytes on which decoding panics |
| Examples.InsertionPanics | api/business/v1/generated.pb.go:2844-2857 | twelve bytes that are an error return, and a panic with a two-byte unknown record in front |
| Examples.EntryReadsOn | api/business/v1/generated.pb.go:2784-2812 | an entry whose key is the first byte of whatever follows, and an error return when nothing does |
| Examples.InsertionsDiffer | api/business/v1/generated.pb.go:2784-2812 | two unknown records inserted at the same place after that entry make maps that are equal if and only if their first bytes are |
| Examples.KeyOrderExample | api/business/v1/generated.pb.go:772 | the keys "a" and "b" are written in that order |
| Examples.ClustersExample | api/business/v1/generated.pb.go:1369-1398 | the fourteen bytes of two clusters with empty quantities |
| Examples.BadCluster | api/business/v1/generated.pb.go:4966-4970 | a cluster whose value is a bare tag is an error return |
| Examples.BadCondition | api/monitor/v1/generated.pb.go:1569-1574 | a condition that is a bare tag is an error return |
| Examples.BadQuery | api/monitor/v1/generated.pb.go:1349-1351 | a query that is a bare tag is an error return |

## Left out

- MetricQueryCodec.MetricQueryCondition.Unmarshal: the fields of the object after an error return are not specified; the outcome itself is.
- MetricQueryCodec.MetricQuery.Unmarshal: the fields of the object after an error return are not specified.
- MetricQueryCodec.MetricQuery.Field: the fields after an error outcome are not specified, as for Unmarshal.
- MetricCodec.Metric.Unmarshal: the fields of the object after an error return are not specified; nor is the nested query after an error, which the source updates in place and the model through a copy.
- HardQuantityCodec.HardQuantity.Unmarshal: the fields of the object after an error return are not specified, so allocating the map before its first entry shows on success only.
- ProjectCodec.ProjectSpec.Unmarshal: the fields of the object after an error return are not specified; the outcome itself is.
- ProjectCodec.ProjectStatus.Unmarshal: the fields of the object after an error return are not specified; the outcome itself is.
- ProjectCodec.ProjectSpec.Field: the fields after an error outcome are not specified, as for Unmarshal.
- ProjectCodec.ProjectStatus.Field: the fields after an error outcome are not specified, as for Unmarshal.
- Error values: which error is returned and its text; every error return is `Err` or `Failed`.
- MarshalTo: the same two calls as Marshal, on a caller's buffer.
- Encodings longer than the largest int: they cannot be slices, and Size would wrap.
- 32-bit platforms: int is 64 bits wide.
- Nil receivers: Size returns 0 on them.
- Aliasing: pointers to int64 and bool are options, elements of slices and maps are values that are loaded into an object for nested calls, and a sub-slice of the buffer is an index range of the whole.
- UsedQuantity: represented by HardQuantity, whose generated code differs in the name of the field only.
- resource.Quantity: an abstract codec. Its decoder is a function of the bytes that may succeed, fail or panic; Size is taken to be the length of what it writes. What else is assumed is a hypothesis of the lemma that needs it: that it reads back what it wrote up to a normal form (`RoundTrips`), that a normal form is its own (`NormSettles`) or is written like the quantity itself (`Canonical`), that the decoder does not panic (`DecodesQuietly`).
- metav1.ObjectMeta: an abstract codec in the same way, decoding into a given value (`RestoresMeta`, `MetaQuiet`).
- sortkeys.Strings: not part of the repository; modelled by insertion of distinct keys, the order being that of Go strings.
- The outer loop of skipGenerated: a conditional, since every branch of its body returns.
- Decoder.UnknownTransparent: says nothing of unsuccessful outcomes with maps; MapBoundaries.Inserted does.
- An entry cut inside a tag or a length, so that the varint itself goes on in what follows: outside the conditions of InsertedConfined and of RunsOffDecodes. A prefix that decodes in spite of it is covered by Inserted.
- A last value that runs off its entry: RunsOffDecodes and RunsOffInserted give the outcomes in terms of the value's decoder on the bytes taken, ValueGuardExact compares them at the end of the input; before enough bytes, whether two values are equal depends on that decoder.
- ConfigMap, Namespace, NamespaceSpec, Platform, PlatformSpec, Project and the list messages: further combinations of the same loops.
- SetDefaults_NamespaceSpec, SetDefaults_NamespaceStatus and the other defaults: the same pattern on other messages.
- String methods, descriptors, registration, deep copies and conversions.
