# UBL-CORE, modelled and proved in Dafny

UBL-CORE is a deterministic pipeline: requests enter through the KNOCK gate, are brought into a canonical
binary form (NRF-1.1), are decided by policy circuits, leave a receipt with an authenticated stage chain,
and are committed durably with an outbox. Several of its parts rest on the claim that a fast or serialised
form agrees with a simple one, or on an invariant kept over whole runs. This project models those parts and
proves the claims for all inputs and all runs. Where a claim is false of the code, the code is modelled as
it is, a lemma shows a failing input, and another says exactly when the claim holds.

| files | what they model |
|---|---|
| Utf8, VarInts, Nrf, NrfCodec, Json, JsonWire | the NRF-1.1 codec and canonical bytes of JSON |
| Normalizer, NormalizeExact, Idempotence, Timestamps, Stamps, Faults, KeyScan, Knock, KnockExact | the rho input normaliser and when it is idempotent, timestamp fractions and texts, its errors, the duplicate-key scanner, the KNOCK gate |
| LogLine, LogLineLexer, LogLineParser, LogLinePrinter, LogLineRoundTrip, LogLineHangs, LogLineBare | the LogLine tokenizer, parser and serializer |
| SortedKeys, EventStore, EventLog | the event store and its seven index trees |
| ReceiptDoc, Receipt, ReceiptChain | the receipt as a JSON document, and its auth chain |
| Durable, DurableStore, Nonces | durable commits, idempotency, outbox workers, backoff, the nonce guard |
| ChipStore, ChipBackend, Onboarding, OnboardingForms | chip store indexes, pagination, onboarding rules |
| Ancestry, RateLimit, Circuits | the policy ancestry walk, the sliding-window limiter, policy circuits |

Code that works by changing things is modelled by classes and loops (NrfCodec, EventLog, ReceiptChain,
DurableStore, ChipBackend, the LogLine classes, and others), each method proved against a function on
values; the theorems are about those functions. `dafny verify dfyconfig.toml` checks everything.

What comes from outside is a parameter with stated laws: Unicode NFC (idempotent, adds no byte-order mark or
control character), Rust's character tables and number printing, the RFC 3339 timestamp parser, serde's JSON
parser, BLAKE3 hashes and keyed tokens (free of collisions only in the lemmas that say `HashesDiffer` or
`TokensDiffer`; content ids are hashes of canonical bytes, so equivalent documents do share them), clocks,
delivery handlers and capabilities. A string is a sequence of Unicode scalar values, integers are unbounded
except where the width matters (u32 lengths and attempt counts, i64 numbers and times), and each SQLite
transaction or sled call is one step.

Where documentation and code differ, the code is followed: the comment on `scan_object_keys`
(crates/ubl_runtime/src/knock.rs:533) promises a check at each object level and the code checks the outermost
object only; the ancestry walk calls every repeated id circular, diamonds included
(crates/ubl_runtime/src/policy_loader.rs:93).

## Model

| member | source | states |
|---|---|---|
| `VarInts.VarintBijection` | crates/ubl_nrf/src/nrf.rs:75-87 | a byte string reads as `n` with nothing left over if and only if `n` is a u32 and the string is its minimal encoding |
| `VarInts.VarintUndoesRead` | crates/ubl_nrf/src/nrf.rs:162-190 | whatever is read is below 2^32 and is the minimal encoding followed by the rest: nothing else is accepted |
| `VarInts.ReadUndoesVarint` | crates/ubl_nrf/src/nrf.rs:162-190 | every u32 reads back from its encoding, whatever follows |
| `VarInts.EncodeVarint32` | crates/ubl_nrf/src/nrf.rs:75-87 | the loop appends exactly the minimal encoding to the buffer |
| `VarInts.DigitFits` | crates/ubl_nrf/src/nrf.rs:162-190 | adding the next seven bits never overflows a u32, and they can be read back off the top |
| `VarInts.DecodeVarint32` | crates/ubl_nrf/src/nrf.rs:162-190 | the loop returns the number read and leaves the cursor behind it, or fails exactly when the bytes are no minimal encoding |
| `VarInts.VarintSpells` | crates/ubl_nrf/src/nrf.rs:75-87 | the seven-bit groups, low ones first, spell the number; only the last byte has its top bit clear, and it is not empty |
| `Utf8.DecodeUndoesEncode` | crates/ubl_nrf/src/nrf.rs:115-127 | decoding the UTF-8 form of a string gives the string |
| `Utf8.EncodeUndoesDecode` | crates/ubl_nrf/src/nrf.rs:115-127 | accepted UTF-8 is the encoding of what it decodes to: shortest forms only, no surrogates |
| `Utf8.EncodeCharSpells` | crates/ubl_nrf/src/nrf.rs:46-50 | one to four bytes by the size of the scalar value, the bits behind the marks spelling it |
| `Nrf.DecodeUndoesEncode` | crates/ubl_nrf/src/nrf.rs:30-73 | decode(encode(v)) == v if and only if all lengths fit 32 bits and all strings are NFC and free of a byte-order mark |
| `Nrf.StringOkMeans` | crates/ubl_nrf/src/nrf.rs:115-127 | the decoder accepts exactly the strings in NFC without U+FEFF |
| `Nrf.PrefixFree` | crates/ubl_nrf/src/nrf.rs:37-73 | no encoding is a proper prefix of another, and different values encode differently, whatever strings and keys they hold, while lengths fit 32 bits |
| `Nrf.ReencodeExactlyWhenOrdered` | crates/ubl_nrf/src/nrf.rs:89-160 | bytes that decode re-encode to themselves if and only if every map on the wire lists its keys in order |
| `Nrf.IntRoundTrip` | crates/ubl_nrf/src/nrf.rs:42-45 | the eight big-endian bytes of an i64 read back as it, and the other way round |
| `NrfCodec.EncodeValue` | crates/ubl_nrf/src/nrf.rs:37-73 | the recursive writer appends exactly the encoding of the value |
| `NrfCodec.EncodeToVector` | crates/ubl_nrf/src/nrf.rs:30-35 | magic bytes, then the encoding |
| `NrfCodec.DecodeItems` | crates/ubl_nrf/src/nrf.rs:134-141 | the loop over array items parses as many items as announced, or fails as the grammar does |
| `NrfCodec.DecodeEntries` | crates/ubl_nrf/src/nrf.rs:142-157 | the loop over map entries refuses keys that are not strings or repeat, and keeps the entries in key order |
| `NrfCodec.DecodeValue` | crates/ubl_nrf/src/nrf.rs:103-160 | the recursive reader returns the parsed value with its maps in key order and leaves the cursor behind it, or fails |
| `NrfCodec.DecodeSlice` | crates/ubl_nrf/src/nrf.rs:89-101 | magic bytes, one value, nothing behind it |
| `Json.BytesDecideEquivalence` | crates/ubl_nrf/src/nrf.rs:427-431 | two convertible JSON values have equal canonical bytes if and only if they are equal up to member order and null-valued members at every depth |
| `Json.ShortBytesDecideEquivalence` | crates/ubl_nrf/src/nrf.rs:427-431 | the same with the length bound read off the JSON values themselves |
| `JsonWire.CanonicalBytesDecode` | crates/ubl_nrf/src/nrf.rs:30-35 | decoding the canonical bytes of a value gives the value back, up to the order of members and null members |
| `JsonWire.ConversionReadsBack` | crates/ubl_nrf/src/nrf.rs:211-266 | the converted value stands for the JSON value: booleans, numbers, texts, items and live members read back as they were |
| `JsonWire.ConvertsExactly` | crates/ubl_nrf/src/nrf.rs:211-266 | a value has canonical bytes if and only if its numbers are i64, its strings and all its keys are clean, and no two live members of one object share a key |
| `JsonWire.ScalarBytes` | crates/ubl_nrf/src/nrf.rs:37-45 | null is 00, false 01, true 02 behind the magic bytes, and every integer is 03 and eight bytes whose two's complement value it is |
| `JsonWire.TextBytes` | crates/ubl_nrf/src/nrf.rs:46-50 | a clean text is 04, its length in bytes, and its UTF-8 |
| `JsonWire.ContainerBytes` | crates/ubl_nrf/src/nrf.rs:51-70 | byte strings are 05, arrays 06 and maps 07, with their counts; a map writes each key in front of its value |
| `Json.DistinctMembersConvert` | crates/ubl_nrf/src/nrf.rs:241-264 | an object with distinct names converts if and only if every key is legal and every non-null value converts |
| `Json.BytesCollidePast32Bits` | crates/ubl_nrf/src/nrf.rs:51-70 | two different values with an array of 2^32 items whose canonical bytes are equal: the length bound above is needed |
| `Json.ToNrfLegal` | crates/ubl_nrf/src/nrf.rs:211-266 | what converts is canonical and has only strings and keys the decoder accepts |
| `Json.JsonToNrf` | crates/ubl_nrf/src/nrf.rs:211-266 | the recursive conversion computes the value that ConversionReadsBack and ConvertsExactly speak of, or fails where it does |
| `Json.ConvertMembers` | crates/ubl_nrf/src/nrf.rs:241-264 | the loop over object members strips nulls, refuses repeated and illegal keys, and orders the rest |
| `Normalizer.NormalizeReachesNormalForm` | crates/ubl_nrf/src/nrf.rs:304-355 | whatever the timestamps do, the output passes every rho check on strings and keys, holds no null member or repeated key, and has its set-like arrays in order |
| `NormalizeExact.NormalizeMeans` | crates/ubl_nrf/src/nrf.rs:304-355 | what every kind of value becomes, part by part: a string its NFC without marks (or its canonical timestamp), an array its items or their set form, an object its members under their new keys without the nulls; and when each is refused |
| `NormalizeExact.StripBomTakesMarks` | crates/ubl_nrf/src/nrf.rs:272-278 | the marks go and every other character stays in its place |
| `NormalizeExact.TimestampKeyMeans` | crates/ubl_nrf/src/nrf.rs:288-295 | timestamp keys are exactly those that end, capital letters read as small, in one of the five words |
| `NormalizeExact.AsSetMeans` | crates/ubl_nrf/src/nrf.rs:396-409 | a set-like array is refused exactly when an element has no canonical bytes; otherwise each kept element is the first of its bytes, in increasing order of bytes, and none is lost |
| `Normalizer.NormalizeIdempotent` | crates/ubl_nrf/src/nrf.rs:304-355 | for any timestamp canonicaliser, a value on whose own timestamps it settles is normalised to a fixed point of normalisation |
| `Stamps.IdempotentWithoutDrift` | crates/ubl_nrf/src/nrf.rs:304-388 | every value none of whose strings under a timestamp key is a drifting leap second is normalised to a fixed point, without any bound on lengths |
| `Stamps.IdempotentExactlyWithoutDrift` | crates/ubl_nrf/src/nrf.rs:304-388 | value by value: normalising twice is the same as once if and only if no string under a timestamp key of the value is a drifting leap second, repeats that a set-like array drops included |
| `Idempotence.IdempotentExactly` | crates/ubl_nrf/src/nrf.rs:304-368 | the same for any canonicaliser that brings some measure down where it changes a text: idempotent on a value exactly when its own timestamps settle |
| `Idempotence.SecondTimeExactly` | crates/ubl_nrf/src/nrf.rs:304-355 | normalising twice is the same as once if and only if every timestamp of the first result stays as it is; sorting and dropping repeats cannot hide a change |
| `Normalizer.IdempotentExactlyWhenStampsSettle` | crates/ubl_nrf/src/nrf.rs:304-368 | a corollary about all inputs at once: for any timestamp canonicaliser, normalisation is idempotent on every input if and only if the canonicaliser settles on every clean text |
| `Stamps.IdempotentExactlyOutsideLeapSeconds` | crates/ubl_nrf/src/nrf.rs:304-388 | a corollary about all inputs at once: normalisation is idempotent on every input if and only if no clean text is a drifting leap second |
| `Stamps.LeapSecondDrifts` | crates/ubl_nrf/src/nrf.rs:375-388 | a leap second at .0 under a timestamp key, whose canonical text is read, comes out different the second time |
| `Stamps.StampSettlesExactly` | crates/ubl_nrf/src/nrf.rs:375-388 | canonicalising a timestamp text twice is the same as once if and only if it is not in a leap second, or in one at exactly .111111111, or its canonical text is not read, as past the year 9999 |
| `Stamps.LeapSecondsCanBeRead` | crates/ubl_nrf/src/nrf.rs:376-379 | parsers with the law assumed of chrono exist that read a drifting leap second, and one past the year 9999 that does not drift |
| `Normalizer.AsSetProperties` | crates/ubl_nrf/src/nrf.rs:396-409 | a set-like array comes out with strictly increasing canonical bytes, the same set of canonical bytes as went in, and only elements that went in |
| `Normalizer.AsSetDependsOnBytesOnly` | crates/ubl_nrf/src/nrf.rs:396-409 | the canonical bytes of the result depend only on the set of canonical element bytes |
| `Normalizer.NormalizeValue` | crates/ubl_nrf/src/nrf.rs:304-355 | the recursive normaliser computes the specified value or fails where it does |
| `Normalizer.NormalizeArray` | crates/ubl_nrf/src/nrf.rs:319-332 | the loop over items, then the set form under a set-like key |
| `Normalizer.NormalizeObject` | crates/ubl_nrf/src/nrf.rs:333-353 | the loop over members: normalised keys, nulls dropped, colliding keys refused |
| `Timestamps.SettlesExactly` | crates/ubl_nrf/src/nrf.rs:379-387 | the fraction of a canonical timestamp is canonical again if and only if it is not in a leap second, or in one at exactly .111111111 |
| `Timestamps.RereadFraction` | crates/ubl_nrf/src/nrf.rs:379-387 | reading undoes printing a fraction, except that a leap second comes back with a tenth of its ten printed digits as nanoseconds |
| `Timestamps.PrintFraction` | crates/ubl_nrf/src/nrf.rs:380-388 | the loop that pops trailing zeros prints the specified fraction |
| `KeyScan.ScannerDecidesOuterDuplicates` | crates/ubl_runtime/src/knock.rs:534-617 | on every well-formed JSON object text with surrounding white space the scanner rejects if and only if two members of the outermost object have textually equal non-empty names, and never runs off the text |
| `KeyScan.NestedDuplicatesPass` | crates/ubl_runtime/src/knock.rs:533-534 | whatever repeats below the outermost object passes, against what the comment in the source says |
| `KeyScan.ScanNested` | crates/ubl_runtime/src/knock.rs:546-608 | a legal value nested in the object leaves depth, string state and key set as they were |
| `KeyScan.ScanObjectKeys` | crates/ubl_runtime/src/knock.rs:534-617 | the index loops give the verdict of the specified scan on every byte string |
| `KeyScan.ScanObject` | crates/ubl_runtime/src/knock.rs:541-612 | the loop over one object ends with the specified verdict or behind the object |
| `KeyScan.ScanKey` | crates/ubl_runtime/src/knock.rs:561-597 | a string directly in the object is skipped, and counted as a key or refused as a duplicate when a colon follows |
| `Knock.AcceptanceImpliesEncodable` | crates/ubl_runtime/src/knock.rs:128-151 | every accepted value passes every rho check, holds only i64 numbers (inside number atoms too), and is accepted by the canonical encoder |
| `KnockExact.AcceptsExactly` | crates/ubl_runtime/src/knock.rs:67-151 | a body is accepted as a value if and only if it is at most 1048576 bytes of UTF-8 that parse and normalise to it, it is an object with "@type" and "@world", nests at most 32 deep, has arrays of at most 10000 items and legal numbers, the schema has no objection, and its own names are spelled differently |
| `KnockExact.RefusesValueExactly` | crates/ubl_runtime/src/knock.rs:88-115 | a body that reads as a value is refused with each error exactly when that is the first thing wrong with it: not an object, an anchor missing, too deep, an array too long, a number (of the kind the error names), the schema, a repeated name |
| `KnockExact.RefusesTextExactly` | crates/ubl_runtime/src/knock.rs:67-161 | the errors of bodies that do not: too large, not UTF-8, not JSON, or the normaliser's first error |
| `KnockExact.NumericCheckIsExact` | crates/ubl_runtime/src/knock.rs:294-328 | the number check accepts exactly the values whose numbers outside atoms are 64-bit integers (none, where literals are refused) and whose objects with "@num" are atoms |
| `KnockExact.AtomCheckIsExact` | crates/ubl_runtime/src/knock.rs:361-499 | an object is a number atom if and only if it is one of the four forms, field by field, bounds nested |
| `Knock.GateNeverCrashes` | crates/ubl_runtime/src/knock.rs:128-151 | with a parser that takes only JSON text, no bytes crash the gate, and what it accepts is the text of an object whose outermost names are textually distinct |
| `Knock.GateOnObjectText` | crates/ubl_runtime/src/knock.rs:128-151 | on every object text the gate returns, and refuses it when the outermost object repeats a name |
| `Knock.DuplicateKeyHasReason` | crates/ubl_runtime/src/knock.rs:128-161 | a repeated key is reported only when the scanner saw one in the text, or two keys of one object normalise alike, or a key on the way to another error spells the marker that the error mapping looks for |
| `Faults.FirstFault` | crates/ubl_nrf/src/nrf.rs:304-355 | there is a first error exactly when normalisation fails |
| `Faults.CollisionIsReal` | crates/ubl_nrf/src/nrf.rs:332-355 | when the first error is a collision, two keys of one object of the input normalise alike; converting the elements of a set-like array never adds one |
| `Faults.CollisionIsFound` | crates/ubl_nrf/src/nrf.rs:332-355 | an object whose members normalise up to one whose key meets an earlier one fails with the collision, whatever follows |
| `Faults.MarkerInKeyMisleads` | crates/ubl_runtime/src/knock.rs:153-161 | a control character under the key "DuplicateKey(" is reported as a repeated key, though no two keys meet |
| `Faults.MentionsExactly` | crates/ubl_runtime/src/knock.rs:153-161 | a key counts as naming the marker exactly when "DuplicateKey(" stands somewhere in it |
| `Knock.DepthCheckIsExact` | crates/ubl_runtime/src/knock.rs:274-292 | the depth check accepts exactly the values whose nesting stays within the limit |
| `Knock.ArrayCheckIsExact` | crates/ubl_runtime/src/knock.rs:501-522 | the array check accepts exactly the values all of whose arrays are short enough |
| `Knock.NumAtomIsI64` | crates/ubl_runtime/src/knock.rs:363-467 | a legal number atom, nested bounds included, holds no number outside i64 |
| `Knock.CleanConverts` | crates/ubl_nrf/src/nrf.rs:211-266 | the encoder accepts every value with clean strings, distinct keys and i64 numbers |
| `LogLineRoundTrip.RoundTrip` | logline/src/serializer.rs:34-164 | printing, then tokenizing and parsing, returns the same type, name and parameters if and only if nothing lies inside more than 32 containers, otherwise the nesting error; for quoted strings with every text, unquoted with texts that need quotes, are taken whole or are plain words with single spaces |
| `LogLineRoundTrip.AllReadBackExactlyWhenQuoted` | logline/src/serializer.rs:85-94 | all spans with legal keys and name and shallow nesting read back, whatever their texts, if and only if strings are quoted |
| `LogLineRoundTrip.LexSpan` | logline/src/tokenizer.rs:201-320 | the printed text of a legal span tokenizes to exactly its tokens |
| `LogLineRoundTrip.ParseSpanTokens` | logline/src/parser.rs:91-118 | those tokens parse to the span, or to the nesting error |
| `LogLineRoundTrip.ReadEscaped` | logline/src/tokenizer.rs:129-185 | reading a quoted string undoes escaping, for every string |
| `LogLinePrinter.UnquotedTextCollides` | logline/src/serializer.rs:85-94 | without quoting the text "true" and the boolean print alike, so no parser can tell them apart |
| `LogLineParser.ArrayStallsExactlyWhenStuck` | logline/src/parser.rs:347-387 | a round of the array loop that reads a value makes no headway exactly at a colon, END or a closing brace, and then the loop never ends |
| `LogLineHangs.HangsExactlyAtStuckToken` | logline/src/parser.rs:91-387 | the parser never returns if and only if some token is a colon, END or closing brace and a one-pass scan of the tokens before it, which builds no values, ends inside an array at most 32 deep that waits for its next item |
| `LogLineHangs.HangsExactlyWhenScanStalls` | logline/src/parser.rs:91-387 | the same scan run over the whole document stalls if and only if the parser never returns |
| `LogLineHangs.OpenArrayHangs` | logline/src/parser.rs:347-387 | an array of any items that read back, left open in front of a colon, END or closing brace, makes the parser run for ever whatever follows |
| `LogLineHangs.UnclosedArrayNeverReturns` | logline/src/parser.rs:347-387 | the text "a: / b: [END" (on two lines) is one on which the parser never returns |
| `LogLineLexer.IndentPositionUnderflowsExactly` | logline/src/tokenizer.rs:203-215 | the unsigned `position - indent` underflows exactly when fewer characters than three per leading tab come before the line |
| `LogLineLexer.Tokenizer.NextTokenAt` | logline/src/tokenizer.rs:201-305 | the stateful tokenizer yields the specified token and leaves the specified text and line state |
| `LogLineLexer.Tokenizer.Tokenize` | logline/src/tokenizer.rs:308-320 | the token loop returns the specified token list, or the first error |
| `LogLineLexer.Tokenizer.ReadQuoted` | logline/src/tokenizer.rs:129-185 | the string loop returns the unescaped text up to the closing quote, or the error of an unterminated string |
| `LogLineLexer.Tokenizer.ReadNumberText` | logline/src/tokenizer.rs:101-127 | the number loop takes a sign, digits and at most one point followed by a digit |
| `LogLineLexer.NumberTextEnds` | logline/src/tokenizer.rs:101-127 | a number's text is a minus or not, digits, and one point if a digit is behind it, and it ends exactly there |
| `LogLineLexer.Tokenizer.ReadIdentifier` | logline/src/tokenizer.rs:88-99 | the identifier loop takes the longest run of identifier characters |
| `LogLineLexer.Tokenizer.CountIndentation` | logline/src/tokenizer.rs:75-86 | the indentation loop counts one per space and four per tab |
| `LogLineParser.Parser.ParseDocument` | logline/src/parser.rs:91-118 | the whole parser reports what the specified grammar says: span, error, or no end |
| `LogLineParser.Parser.ParseValueAt` | logline/src/parser.rs:217-299 | a value at the current token, with its nesting limit, position and depth restored |
| `LogLineParser.Parser.ParseObjectAt` | logline/src/parser.rs:301-345 | the object loop collects the specified fields |
| `LogLineParser.Parser.ParseArrayAt` | logline/src/parser.rs:347-387 | the array loop collects the specified items or is seen to go round for ever |
| `LogLineParser.Parser.ParseParamsAt` | logline/src/parser.rs:168-190 | the parameter loop collects the specified fields up to END |
| `LogLineParser.Parser.ParseParamAt` | logline/src/parser.rs:192-215 | one key with its value, or a bare key standing for true |
| `LogLineParser.Parser.ParseOptionalName` | logline/src/parser.rs:145-166 | the optional name after the header colon |
| `LogLineBare.BareValueIsSentence` | logline/src/parser.rs:217-299 | a bare value is its words, numbers and booleans by their names and colons included, with one space between each two, up to the end of the line or a delimiter |
| `LogLineBare.BareKeyIsTrue` | logline/src/parser.rs:192-215 | a bare key reads as if ": true" stood behind it |
| `LogLinePrinter.SerializeSpan` | logline/src/serializer.rs:34-76 | the printer builds exactly the specified text |
| `LogLinePrinter.PushValue` | logline/src/serializer.rs:78-136 | the recursive value printer appends the specified text |
| `LogLinePrinter.EscapeString` | logline/src/serializer.rs:151-164 | the escape loop appends the specified escapes |
| `LogLinePrinter.KeywordsAreCased` | logline/src/serializer.rs:34-135 | the type opens the text and every key its line, behind the margin, in capital letters exactly when the option asks for them |
| `LogLinePrinter.MarginRepeats` | logline/src/serializer.rs:116-131 | the margin is the indentation as often as the depth says |
| `EventStore.QueryAfterAnyRun` | crates/ubl_eventstore/src/lib.rs:213-273 | after any run of appends and rebuilds, with separator-free ids, upper-case stages and decisions, non-empty filters and since not before 1970, a query answers with the stored events that pass each of its filters on their own fields, from since on, in order of time and id, cut to the limit |
| `EventStore.MatchesExactly` | crates/ubl_eventstore/src/lib.rs:497-531 | an event matches if and only if it passes every filter: world, code and actor equal, stage and decision equal up to ASCII case (absent counting as empty), type by glob |
| `EventStore.FiltersAddUp` | crates/ubl_eventstore/src/lib.rs:213-273 | what a query lists is the common part of what each of its filters lists alone |
| `EventStore.GlobMeans` | crates/ubl_eventstore/src/lib.rs:533-545 | the glob matcher takes exactly the texts that the pattern describes, for patterns with no, one or more stars |
| `EventStore.ChoosesBest` | crates/ubl_eventstore/src/lib.rs:154-184 | the index used is the first usable one in the order type, world, actor, code, stage, decision, and one is used whenever any is usable |
| `EventStore.PathsAgree` | crates/ubl_eventstore/src/lib.rs:154-273 | with separator-free ids, upper-case stages and decisions and non-empty filters, the chosen index returns exactly the list the time scan returns, for times and since of any sign |
| `EventStore.IndexesAgreeExactlyWhenUpper` | crates/ubl_eventstore/src/lib.rs:171-182 | index and scan list the same events for every query with non-empty filters if and only if every stored stage and decision is in upper case |
| `EventStore.IndexesAlwaysAgreeExactly` | crates/ubl_eventstore/src/lib.rs:502-527 | for all queries, empty filters included, they agree if and only if every stored event also names its stage, decision and chip type |
| `EventStore.PathsAgreeExactly` | crates/ubl_eventstore/src/lib.rs:213-273 | for one query the two limited answers are equal if and only if every event of the scan's answer carries the looked-up value literally |
| `EventStore.IndexListIsFilteredScan` | crates/ubl_eventstore/src/lib.rs:187-211 | in every store the index lists the time scan without the events that do not carry the looked-up value literally, in the same order |
| `EventStore.ScanIsChronological` | crates/ubl_eventstore/src/lib.rs:246-272 | with a since not before 1970 the time scan lists exactly the matching events from since on, by time and then id, whatever else is stored |
| `EventStore.ScanListsFromSinceExactly` | crates/ubl_eventstore/src/lib.rs:246-272 | the scan lists exactly the matching events from since on if and only if since is not before 1970 or every matching event is at since or not before 1970 |
| `EventStore.ScanOrderExactly` | crates/ubl_eventstore/src/lib.rs:246-272 | the scan is in (time, id) order if and only if it lists no two different times before 1970 |
| `EventStore.ScanListsBehindStart` | crates/ubl_eventstore/src/lib.rs:246-272 | for every since, the scan lists exactly the matching events from it on, or when it is before 1970 those not before 1970 or not after it |
| `EventStore.NegativeSinceListsTheWrongSide` | crates/ubl_eventstore/src/lib.rs:220-248 | with since -1000 the event at -5 is dropped and the event at -2000 is listed |
| `EventStore.LowerCaseStageIsMissed` | crates/ubl_eventstore/src/lib.rs:171-176 | an event with stage "wa" is found by the scan for "WA" and missed by the stage index |
| `EventStore.RunsStayIndexed` | crates/ubl_eventstore/src/lib.rs:88-150 | in every run each tree holds exactly the keys of the stored events, in order |
| `EventStore.RebuildChangesNothing` | crates/ubl_eventstore/src/lib.rs:116-150 | rebuilding right indexes changes nothing |
| `EventStore.KeyLeadsBack` | crates/ubl_eventstore/src/lib.rs:393-406 | an index key leads back to its event if and only if the id has no separator in it |
| `EventStore.KeyOrderIsTimeOrder` | crates/ubl_eventstore/src/lib.rs:393-399 | byte order of two keys is order by time and then id if and only if the times are not two different ones before 1970 |
| `EventStore.NegativeTimesRunBackwards` | crates/ubl_eventstore/src/lib.rs:393-395 | of two times before 1970 the later sorts first |
| `SortedKeys.PaddedOrder` | crates/ubl_eventstore/src/lib.rs:393-399 | the lexicographic order of twenty-place padded numbers is the numeric order from zero up |
| `SortedKeys.WhilePrefixProperties` | crates/ubl_eventstore/src/lib.rs:199-209 | scanning from a start key to the first foreign key finds all keys with the prefix from there on |
| `EventStore.GlobOneStar` | crates/ubl_eventstore/src/lib.rs:533-545 | a pattern with one star matches exactly the texts that start with its front and end with its back |
| `EventStore.GlobEndsMayOverlap` | crates/ubl_eventstore/src/lib.rs:538-541 | front and back may overlap: the pattern "a*a" matches "a" |
| `EventStore.Limit` | crates/ubl_eventstore/src/lib.rs:219 | an unset limit is 200, zero is 1, more than 2000 is 2000, and any other stays |
| `EventLog.Log.AppendEvent` | crates/ubl_eventstore/src/lib.rs:88-114 | adds the event and its keys, or changes nothing and says so when the id is taken; keeps the indexes right |
| `EventLog.Log.InsertIndexes` | crates/ubl_eventstore/src/lib.rs:275-311 | each tree gets the event's key if the event has that value |
| `EventLog.Log.RebuildIndexes` | crates/ubl_eventstore/src/lib.rs:116-150 | whatever the trees held, afterwards they are right, and unchanged if they were right |
| `EventLog.Log.ScanDimIndex` | crates/ubl_eventstore/src/lib.rs:187-211 | the loop returns the ids behind the keys under the value |
| `EventLog.Log.Find` | crates/ubl_eventstore/src/lib.rs:213-273 | the query loops return the specified list |
| `Receipt.EveryRunVerifies` | crates/ubl_receipt/src/unified.rs:390-482 | in every run of appends, denies with the current secret after the first append, signing and at most one rotation, every append succeeds and replay verification is true |
| `Receipt.RunVerifiesExactly` | crates/ubl_receipt/src/unified.rs:390-655 | with any number of rotations, and tokens free of collisions, replay succeeds if and only if every stage was last signed with the current or the previous key |
| `Receipt.RunsStaySound` | crates/ubl_receipt/src/unified.rs:390-571 | over every such run each token is over the content id of the stages in front of it in the present document |
| `Receipt.VerifyDecidesIntact` | crates/ubl_receipt/src/unified.rs:620-655 | replay returns true exactly when the document hashes, every token matches its prefix, and the stored id is that of the whole |
| `Receipt.VerifiesExactlyWhenKeysKnown` | crates/ubl_receipt/src/unified.rs:620-655 | with tokens free of collisions a signed chain verifies if and only if every stage's key is the current or the previous one; nothing is asked of the content hash |
| `Receipt.AppendSigns` | crates/ubl_receipt/src/unified.rs:390-434 | an append signs the new stage with the current key and succeeds when all earlier keys are known, and with tokens free of collisions exactly then |
| `Receipt.UnfitAppendClears` | crates/ubl_receipt/src/unified.rs:437-457 | contents that cannot be canonicalised make an append fail, if and only if they are there, and leave the stage in, signature and ids cleared |
| `Receipt.DenyRepairs` | crates/ubl_receipt/src/unified.rs:521-571 | a deny with a usable secret on a receipt with stages makes any chain, broken or not, verify under that secret, changing only decision, reason and tokens |
| `Receipt.DenyOnEmptyNeverVerifies` | crates/ubl_receipt/src/unified.rs:532-544 | a deny before the first stage leaves a receipt that no keys verify |
| `Receipt.AppendAfterEmptyDenyFails` | crates/ubl_receipt/src/unified.rs:402-409 | and the append after it is refused |
| `Receipt.DenyWithoutSecretExactly` | crates/ubl_receipt/src/unified.rs:537-544 | a deny without a secret keeps a verifying chain verifying if and only if it has one stage or the document already says Deny for that reason |
| `Receipt.TokenPinsHistory` | crates/ubl_receipt/src/unified.rs:714-721 | in two verifying receipts shorter than 2^32 equal tokens stand at the same place under the same stage name behind prefixes that are equal up to member order and null members, decision and effects included |
| `Receipt.CidPinsDocument` | crates/ubl_receipt/src/unified.rs:437-457 | two verifying receipts shorter than 2^32 have one content id if and only if they are equal up to member order and null members |
| `Receipt.CidTellsSameDoc` | crates/ubl_canon/src/lib.rs:41-44 | two canonicalisable documents share a content id if and only if they are equal up to member order and null members |
| `Receipt.NullMemberGoesUnseen` | crates/ubl_receipt/src/unified.rs:437-457 | a null member added to the effects of a receipt gives a different document on which replay answers the same |
| `Receipt.CidExists` | crates/ubl_canon/src/lib.rs:35-44 | a document has a content id if and only if header, stage details, tokens and effects are such as the canonical encoder takes |
| `ReceiptDoc.SameDocParts` | crates/ubl_receipt/src/unified.rs:46-62 | documents equal up to member order and nulls have the same stages, tokens and decision, and headers, details and effects equal up to the same |
| `ReceiptDoc.DocConverts` | crates/ubl_receipt/src/unified.rs:437-446 | the serialised receipt converts to canonical form if and only if its parts do |
| `ReceiptDoc.DocReadsBack` | crates/ubl_receipt/src/unified.rs:20-62 | every part of the receipt stands in its document under its own name and reads back: header, stage names, tokens, decision, effects |
| `Receipt.TokenTells` | crates/ubl_receipt/src/unified.rs:714-721 | equal tokens over ids come from one id, one stage name and one key |
| `Receipt.AssumptionsCanBeMet` | crates/ubl_receipt/src/unified.rs:714-721 | hashes with every property assumed here exist |
| `ReceiptChain.UnifiedReceipt.AppendStageWithSecrets` | crates/ubl_receipt/src/unified.rs:390-434 | the method leaves the specified receipt and outcome, on errors too |
| `ReceiptChain.UnifiedReceipt.RecomputeCid` | crates/ubl_receipt/src/unified.rs:437-457 | new ids, or signature and ids cleared on failure |
| `ReceiptChain.UnifiedReceipt.DenyWithSecrets` | crates/ubl_receipt/src/unified.rs:521-535 | the method leaves the specified receipt |
| `ReceiptChain.UnifiedReceipt.RebuildAuthChain` | crates/ubl_receipt/src/unified.rs:537-571 | the loop replaces all tokens, or none when hashing fails on the way |
| `ReceiptChain.UnifiedReceipt.VerifyAuthChain` | crates/ubl_receipt/src/unified.rs:620-655 | the replay loop returns the specified answer, true exactly for intact chains |
| `Durable.RunReflectsCommits` | crates/ubl_runtime/src/durable_store.rs:175-219 | after any steps whatever, no two successful commits share a key, each key answers with its commit, the outbox holds their events once each and in order, and a receipt row is the first committed under its id with an allowed decision |
| `Durable.FirstCommitWins` | crates/ubl_runtime/src/durable_store.rs:314-347 | once a key is committed, every later lookup returns that commit's receipt id, receipt, chain and time, and every later commit of the key changes nothing |
| `Durable.AnswersComeFromCommits` | crates/ubl_runtime/src/durable_store.rs:111-150 | whatever a lookup returns is what a commit that went through under the key said, field by field |
| `Durable.AnswerHasReceipt` | crates/ubl_runtime/src/durable_store.rs:175-219 | in every run the receipt id that a committed key answers with is in the receipts table when the decision was allow or deny |
| `Durable.FirstReceiptIsOne` | crates/ubl_runtime/src/durable_store.rs:185-200 | the receipt kept under an id is the one of the first commit of that id whose decision passes the CHECK |
| `Durable.UnknownExactlyBeforeCommit` | crates/ubl_runtime/src/durable_store.rs:111-150 | a key is unknown if and only if no commit of it has succeeded |
| `Durable.NextCommits` | crates/ubl_runtime/src/durable_store.rs:175-219 | a commit that fails, by injection or conflict, changes nothing |
| `Durable.ReceiptStoredExactly` | crates/ubl_runtime/src/durable_store.rs:186-200 | after a successful commit its receipt row is there if and only if it was there before or the decision is allow or deny |
| `Durable.UnknownDecisionLosesReceipt` | crates/ubl_runtime/src/durable_store.rs:386-397 | a commit with decision "Allow" succeeds and answers by key while its receipt row is silently skipped |
| `Durable.LegalRunsAreOrderly` | crates/ubl_runtime/src/durable_store.rs:221-301 | for every interleaving of workers that release only rows they claimed, no row has two holders, held means in flight, and attempts equals the number of claims |
| `Durable.DeliveredIsFinal` | crates/ubl_runtime/src/durable_store.rs:221-301 | no row vanishes or changes its event, and a done row is never claimed or changed again, however the run goes on |
| `Durable.StrayNackRevives` | crates/ubl_runtime/src/durable_store.rs:292-301 | a nack by a worker that does not hold the row makes a done row claimable again: the rule is needed |
| `Durable.KeptExactly` | crates/ubl_runtime/src/durable_store.rs:221-301 | of all steps by any worker, exactly the nack of a done row fails to keep rows, their events and done rows as they are |
| `Durable.OrderlyKeptExactly` | crates/ubl_runtime/src/durable_store.rs:221-301 | of all steps by any worker, exactly the release of a row in flight by one that does not hold it breaks the agreement of holders, status and attempts |
| `Durable.DueProperties` | crates/ubl_runtime/src/durable_store.rs:228-250 | a claim takes due rows by ascending id, no more than asked, passing over none |
| `Durable.ClaimedRows` | crates/ubl_runtime/src/durable_store.rs:221-279 | a claimed row is in flight with one attempt more and all else as it was; every other row is untouched |
| `Durable.ReleasedRows` | crates/ubl_runtime/src/durable_store.rs:281-301 | a row given back is due from the time named on, an acknowledged one never, and no other row changes |
| `Durable.CommittedEventsAreDue` | crates/ubl_runtime/src/durable_store.rs:349-364 | what a commit enqueues carries its events in order and is due from the commit's time on, not before |
| `DurableStore.Store.CommitWfAtomically` | crates/ubl_runtime/src/durable_store.rs:175-219 | the transaction installs all of its writes or none; on success the key answers with the commit's own receipt id, receipt, chain and time |
| `DurableStore.Store.GetIdempotent` | crates/ubl_runtime/src/durable_store.rs:111-150 | the stored row of the key, if any |
| `DurableStore.Store.ClaimOutbox` | crates/ubl_runtime/src/durable_store.rs:221-279 | marks the selected rows in flight, counts the attempt, and hands them out as they were before |
| `DurableStore.Store.AckOutbox` | crates/ubl_runtime/src/durable_store.rs:281-290 | marks the row done if it exists, and nothing else |
| `DurableStore.Store.NackOutbox` | crates/ubl_runtime/src/durable_store.rs:292-301 | puts the row back with its next time if it exists, and nothing else |
| `DurableStore.Dispatcher.RunOnce` | crates/ubl_runtime/src/outbox_dispatcher.rs:31-54 | every claimed row ends done or pending with its delay and one attempt more, every other row and table is untouched, and the count is the number claimed |
| `DurableStore.Dispatcher.WithBackoff` | crates/ubl_runtime/src/outbox_dispatcher.rs:22-26 | whatever is asked for, 1 <= base <= max afterwards |
| `DurableStore.DelayBoundsExactly` | crates/ubl_runtime/src/outbox_dispatcher.rs:42-46 | a delay is at most max, and at least min(2*base, max) if and only if the attempt count plus one is no multiple of 2^32 or max equals base |
| `DurableStore.DelayMonotone` | crates/ubl_runtime/src/outbox_dispatcher.rs:42-46 | below 2^32 - 1 attempts a delay is no shorter than one for fewer attempts |
| `DurableStore.DelayDoubles` | crates/ubl_runtime/src/outbox_dispatcher.rs:42-46 | the first wait is twice the base, each further one twice the last, up to the sixteenth try and the maximum, and from there on the same |
| `DurableStore.NeverShrinksExactly` | crates/ubl_runtime/src/outbox_dispatcher.rs:42-46 | up to n attempts delays never shrink if and only if n is below 2^32 - 1 or base equals max |
| `DurableStore.DelayDropsAtWrap` | crates/ubl_runtime/src/outbox_dispatcher.rs:42-43 | at 2^32 - 1 attempts the cast to u32 drops the delay to the bare base |
| `Nonces.AcceptedExactlyWhenFresh` | crates/ubl_runtime/src/durable_store.rs:444-470 | on a clock that does not go back, a nonce is accepted if and only if no accepted use of it is still alive |
| `Nonces.NonceTable.Mark` | crates/ubl_runtime/src/durable_store.rs:444-470 | prunes, inserts if absent, and says whether it inserted |
| `ChipStore.QueriesAnswerFromChips` | crates/ubl_chipstore/src/backends.rs:363-503 | for both kinds of index, after any puts, overwrites, deletes and rebuilds under ids of which none is another behind a NUL, an indexed query collects exactly the chips that filtering a full scan of the plain chips would |
| `ChipStore.FoundIsFullScan` | crates/ubl_chipstore/src/backends.rs:91-129 | intersecting index sets and filtering loses no chip and adds none as long as no needed index entry is missing; stale entries do no harm |
| `ChipStore.ScanMeans` | crates/ubl_chipstore/src/backends.rs:857-890 | a scan finds exactly the stored chips of the kind and executor asked for, with every tag, strictly between the two times |
| `ChipStore.EntriesExactly` | crates/ubl_chipstore/src/backends.rs:902-915 | for ids apart an index lists what it listed and the entry added, or without the one removed, and nothing else |
| `ChipStore.RunsStayComplete` | crates/ubl_chipstore/src/backends.rs:568-717 | in every run no index misses an entry that a stored chip needs |
| `ChipStore.ReindexLists` | crates/ubl_chipstore/src/backends.rs:568-596 | after a rebuild no entry is missing, whatever the indexes held |
| `ChipStore.JoinInjective` | crates/ubl_chipstore/src/backends.rs:902-915 | two composite keys are equal only if value and id are, for ids of which neither is the other behind a NUL |
| `ChipStore.KeysCollideExactly` | crates/ubl_chipstore/src/backends.rs:902-915 | some two different entries for two ids have one key if and only if one id is the other behind a NUL |
| `ChipStore.SledAnswersRightExactly` | crates/ubl_chipstore/src/backends.rs:568-717 | sled queries answer from the plain chips in all runs over a set of ids if and only if none of the ids is another behind a NUL |
| `ChipStore.CollidingIdsLoseAChip` | crates/ubl_chipstore/src/backends.rs:635-644 | for every two such ids, two puts and a delete after which a stored chip is no longer found |
| `ChipStore.PagesPartition` | crates/ubl_chipstore/src/backends.rs:843-855 | for a limit of at least one, following has_more page by page yields the whole ordered list, nothing twice and nothing left out |
| `ChipStore.AnswerSize` | crates/ubl_chipstore/src/backends.rs:843-855 | an answer holds as many chips as are left behind the offset, at most the limit (a hundred by default), with the full count and whether there are more |
| `ChipStore.EmptyPagesForEver` | crates/ubl_chipstore/src/backends.rs:849-850 | a limit of zero gives an empty page that promises more |
| `ChipStore.SortByTimeProperties` | crates/ubl_chipstore/src/backends.rs:844 | the sort is a permutation, newest first |
| `ChipStore.AnswersAgree` | crates/ubl_chipstore/src/backends.rs:843-855 | while no two chips share a time, equal queries get equal answers, so pages are cut from one order |
| `ChipStore.AnswersAgreeExactly` | crates/ubl_chipstore/src/backends.rs:843-855 | any two tables of the same chips, in one process or two, give equal queries equal answers if and only if no two chips share a time; one unmodified table repeats its own order |
| `ChipBackend.Backend.PutChip` | crates/ubl_chipstore/src/backends.rs:363-374 | stores the chip and its entries, leaving old entries behind; completeness is kept |
| `ChipBackend.Backend.DeleteChip` | crates/ubl_chipstore/src/backends.rs:460-473 | removes the chip and the entries of its present values; completeness is kept |
| `ChipBackend.Backend.RebuildIndexes` | crates/ubl_chipstore/src/backends.rs:475-497 | whatever the indexes held, afterwards they miss no chip |
| `ChipBackend.Backend.CandidateCids` | crates/ubl_chipstore/src/backends.rs:691-717 | the intersection of the index sets that apply, or nothing when none does |
| `ChipBackend.Backend.QueryChips` | crates/ubl_chipstore/src/backends.rs:407-425 | some order of the full-scan matches, sorted and cut to the page |
| `Onboarding.RunsStaySound` | crates/ubl_runtime/src/auth.rs:724-755 | in every state reached by validated steps with strictly increasing times, an unrevoked app is newer than every other app of its slug |
| `Onboarding.AtMostOneLiveApp` | crates/ubl_runtime/src/auth.rs:724-755 | so at most one app per slug is unrevoked |
| `Onboarding.PageMissesNothing` | crates/ubl_runtime/src/auth.rs:728-754 | the query cut to a hundred results shows a live app of the slug if and only if the whole store has one |
| `Onboarding.LiveAppIsFirst` | crates/ubl_chipstore/src/backends.rs:843-855 | the live app is the first result of every answer |
| `Onboarding.RevocationIsFinal` | crates/ubl_runtime/src/auth.rs:907-926 | a revoked chip stays revoked whatever is stored later, identical bodies included |
| `Onboarding.OneRevocationIsEnough` | crates/ubl_runtime/src/auth.rs:907-926 | a query for one revocation is non-empty if and only if the chip is revoked |
| `Onboarding.TagIsField` | crates/ubl_chipstore/src/lib.rs:235-287 | a chip has the tag `field:value` of a direct field if and only if the field has that value |
| `Onboarding.AppsAskedFor` | crates/ubl_runtime/src/auth.rs:728-741 | the tag query asks for exactly the apps whose slug field is the slug |
| `Onboarding.Validate` | crates/ubl_runtime/src/auth.rs:714-839 | for a parsed request, validation by truncated queries gives the verdict that the rules give over the whole store, for all six kinds of chip |
| `Onboarding.Admit` | crates/ubl_runtime/src/auth.rs:657-839 | from body to store: parsed, validated and stored exactly when the rules allow it over the whole store, keeping the live app newest; otherwise nothing changes |
| `OnboardingForms.ParsesExactly` | crates/ubl_runtime/src/auth.rs:658-677 | a body parses as a request if and only if it has the type and every field that the request needs, each in its place; other types have no rules, and all else is malformed |
| `OnboardingForms.AppOfExactly` | crates/ubl_runtime/src/auth.rs:533-567 | the app of a world is read exactly off "a/app" and "a/app/t/tenant", whatever follows the tenant |
| `OnboardingForms.TagsMean` | crates/ubl_chipstore/src/lib.rs:235-287 | every kind of tag, type, direct fields, id, world, app, tenant and date, is there if and only if the body says so |
| `OnboardingForms.UsersAskedFor` | crates/ubl_runtime/src/auth.rs:757-790 | the query for the users of an app asks for exactly the stored users whose world names the app |
| `Onboarding.SameBytesSameTextFields` | crates/ubl_chipstore/src/lib.rs:133-141 | bodies with the same canonical bytes have the same string fields, which is what content ids are assumed to keep |
| `Onboarding.FindLiveApp` | crates/ubl_runtime/src/auth.rs:742-754 | the loop over the page finds a live app exactly when there is one |
| `Onboarding.RequireAppExists` | crates/ubl_runtime/src/auth.rs:841-871 | valid exactly when the slug has a live app |
| `Onboarding.RequireChipExists` | crates/ubl_runtime/src/auth.rs:873-905 | missing, of another type, revoked or valid, as the store has it |
| `Onboarding.IsRevoked` | crates/ubl_runtime/src/auth.rs:907-926 | true exactly when some stored revocation names the chip |
| `Onboarding.StoreExecutedChip` | crates/ubl_chipstore/src/lib.rs:127-169 | storing a chip that may be stored keeps the indexes complete and the live app newest |
| `Ancestry.ResolveAncestry` | crates/ubl_runtime/src/policy_loader.rs:78-118 | ends on every store, cyclic or not; succeeds if and only if no two followed links lead to one id; then lists exactly the reachable ids other than genesis, each once, every parent in front of its children |
| `Ancestry.WalkEnds` | crates/ubl_runtime/src/policy_loader.rs:88-113 | when nothing is left to visit, the visited ids are exactly the reachable ones and no two links shared a target |
| `Ancestry.MetAgain` | crates/ubl_runtime/src/policy_loader.rs:91-96 | an id met again is the target of two different followed links |
| `Ancestry.ParentsComeLater` | crates/ubl_runtime/src/policy_loader.rs:88-113 | what is linked from an id is visited after it |
| `Ancestry.DiamondIsRefused` | crates/ubl_runtime/src/policy_loader.rs:93-96 | two parents with one grandparent, genesis included, are refused although nothing is circular |
| `RateLimit.AtMostMaxPerWindow` | crates/ubl_runtime/src/rate_limit.rs:67-88 | on a clock that does not go back no window of the configured length, wherever it lies, holds more than max admissions of a key |
| `RateLimit.RetryAfterIsExact` | crates/ubl_runtime/src/rate_limit.rs:72-80 | a refused caller, if nothing else is admitted meanwhile, is admitted if and only if it asks no earlier than now + retry_after |
| `RateLimit.RetryAfterInWindow` | crates/ubl_runtime/src/rate_limit.rs:74-75 | the wait is positive and at most the window |
| `RateLimit.RemainingIsTheRoomLeft` | crates/ubl_runtime/src/rate_limit.rs:82-87 | the remaining quota that an admitted caller is told is, for a positive window, what the window ending now still has room for |
| `RateLimit.PruningChangesNoAnswer` | crates/ubl_runtime/src/rate_limit.rs:177-186 | leaving out all prunes changes no answer |
| `RateLimit.AnswersFromHistory` | crates/ubl_runtime/src/rate_limit.rs:67-95 | every answer is the one that the complete list of the key's admissions calls for |
| `RateLimit.PanicsExactlyWhenZero` | crates/ubl_runtime/src/rate_limit.rs:73-74 | a check panics if and only if the maximum is zero |
| `RateLimit.RateLimiter.CheckKey` | crates/ubl_runtime/src/rate_limit.rs:157-164 | answers and updates one entry as specified |
| `RateLimit.RateLimiter.Remaining` | crates/ubl_runtime/src/rate_limit.rs:167-174 | one more than an admission now would leave, or zero |
| `RateLimit.RateLimiter.PruneAll` | crates/ubl_runtime/src/rate_limit.rs:177-186 | the loop drops what is out of the window, and empty entries |
| `RateLimit.Retain` | crates/ubl_runtime/src/rate_limit.rs:69-70 | keeps the timestamps after the cutoff, in order |
| `Circuits.RewritingChangesExactly` | crates/ubl_runtime/src/circuit.rs:63-146 | making any sequential nodes of a tree parallel changes the decision if and only if the leaf in charge was one of them, a bit of it denies and its aggregator outvotes that; what changes was a Deny |
| `Circuits.AllKeepsDecisions` | crates/ubl_runtime/src/circuit.rs:161-201 | with All at every node no rewriting changes any decision |
| `Circuits.ParallelIsSafeExactlyForAll` | crates/ubl_runtime/src/circuit.rs:82-117 | sequence and parallel agree on every list of bits if and only if the aggregator is All |
| `Circuits.SafeForAllBitsExactly` | crates/ubl_runtime/src/circuit.rs:63-146 | for a tree of any shape, making it parallel keeps the decision for all bits and contexts if and only if every sequential leaf that some context leads to aggregates with All |
| `Circuits.OnlyAllNeverOutvotes` | crates/ubl_runtime/src/circuit.rs:148-295 | All is the only aggregator that never outvotes a Deny |
| `Circuits.AggregateMeans` | crates/ubl_runtime/src/circuit.rs:148-295 | the verdict of each aggregator, counted vote by vote: All, Any, Majority, K-of-N, FirstDecisive, and Allow without votes |
| `Circuits.DecideRules` | crates/ubl_runtime/src/circuit.rs:63-146 | a circuit comes to a decision if and only if it rules so: a leaf by what each of its bits says of the context, a conditional circuit by the branch in charge |
| `Circuits.EvalDecidesHolds` | crates/ubl_runtime/src/reasoning_bit.rs:82-103 | evaluation finds exactly the conditions that hold, kind by kind |
| `Circuits.FirstMatch` | crates/ubl_runtime/src/circuit.rs:124-128 | the first branch whose condition holds: it holds there and nowhere before |
| `Circuits.ConditionDependsOnInputs` | crates/ubl_runtime/src/reasoning_bit.rs:82-131 | a condition depends on nothing but the keys that inputs_used reports and the body size |
| `Circuits.InputsExactly` | crates/ubl_runtime/src/reasoning_bit.rs:113-131 | the keys reported are exactly those that occur in the condition at any depth |
| `Circuits.CircuitDependsOnInputs` | crates/ubl_runtime/src/circuit.rs:63-146 | nor does a whole circuit's decision |
| `Circuits.EvaluateSequential` | crates/ubl_runtime/src/circuit.rs:82-104 | each result is what its bit says, the decision is what the circuit rules, and nothing behind the first Deny is evaluated |
| `Circuits.EvaluateParallel` | crates/ubl_runtime/src/circuit.rs:106-117 | every bit gives its result, and the decision is what the circuit rules |
| `Circuits.EvaluateConditional` | crates/ubl_runtime/src/circuit.rs:119-146 | the decision is what the branch in charge rules, else the first branch's else, else Deny |
| `Circuits.Evaluate` | crates/ubl_runtime/src/circuit.rs:63-80 | the decision is what the circuit rules |
| `Circuits.AggregateResults` | crates/ubl_runtime/src/circuit.rs:148-295 | counts and loops give the verdict of each aggregator |
| `Circuits.CollectInputs` | crates/ubl_runtime/src/reasoning_bit.rs:113-131 | pushes exactly the keys that occur, behind what was there |
| `Circuits.InputsUsed` | crates/ubl_runtime/src/reasoning_bit.rs:105-111 | every key that the condition asks for, once, in order |

## Left out

- Cryptographic primitives, signatures, key rotation storage and runtime certificates: foreign code; hashing and tokens are parameters.
- Freedom from collisions, where it is assumed, idealises a 128-bit truncated token and a 256-bit hash.
- TokenPinsHistory: speaks, as CidPinsDocument does, of documents whose texts, arrays and objects are shorter than 2^32, because past that the length prefix is cut and different values share their bytes (`BytesCollidePast32Bits`).
- CidPinsDocument: the same bound, for the same reason.
- RoundTrip: needs an indentation of spaces, because with tabs the tokenizer's position arithmetic can overflow (`IndentPositionUnderflowsExactly`); for unquoted strings its condition on texts is sufficient, not necessary.
- ArrayStallsExactlyWhenStuck: speaks of one round of the loop, because `LogLineHangs` has the whole document.
- RB-VM execution, TLV decoding, the silicon compiler, UNC-1 arithmetic and the WASM adapter are not part of this model.
- KNOCK's mode that rewrites floats to bounds depends on UNC-1 arithmetic and is not modelled; acceptance is proved for the mode that refuses floats.
- The type-specific schema checks of KNOCK are a parameter that can only reject.
- Error message text and durations: errors are distinguished by kind only; of the paths in normalisation errors only the keys are kept, because the error mapping looks for its marker in them.
- LogLine source positions and line/column numbers are not part of tokens; `IndentPositionUnderflowsExactly` states when computing one overflows.
- LogLine numbers are mathematical integers; f64 parsing and printing are parameters that agree on integers.
- Canonical JSON numbers are those serde holds as integers; floats convert to an error as in the code.
- The event store reads an event's fields off its JSON before the model starts; event ids made by hashing are given.
- Parsing an RFC 3339 text is a parameter with this law: the canonical texts of a second that was read are either all read, as that second with the first nine digits of the fraction, or none of them is, as past the year 9999; chrono's convention for leap seconds is followed.
- IdempotentExactlyWithoutDrift: asks that the elements of set-like arrays be shorter than 2^32, because past that two different elements can share their bytes and the one that is dropped leaves no trace; `IdempotentWithoutDrift` has no bound.
- IdempotentExactly: the same bound, for the same reason.
- Chip creation times are integers where the store compares RFC 3339 strings; only their order matters.
- The receipt index of the chip store, related chips, get_chips_by_type, and the file-system and S3 backends are not modelled.
- Validation and storing are one step in the onboarding runs; two pipelines racing between check and write are not modelled.
- Admit: takes whether the body carries the needed capability as a flag, as `Validate` does.
- Validate: takes whether the body carries the needed capability as a flag, because capabilities are signed documents checked elsewhere.
- The policy storage's own indexes, attaching policies to ancestors and storage errors during the walk would only add easy members.
- The three-limiter gate and the fingerprint limiter are plain compositions of the limiter proved here.
- CollectInputs: says nothing of the order of the keys, which only `InputsUsed` fixes, because the source sorts them afterwards.
- Receipt decision and effects change only through deny; other setters of the builder are used before the first stage.
- The nonce table's times are unbounded integers; overflow of a time-to-live cast to i64 is not modelled.
- HTTP, command line, configuration, manifests, the event bus and the LLM observer: plumbing without properties of this kind.
