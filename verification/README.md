# Wallet kernels, verified

A Dafny model of the parts of the Arkade wallet and its SatsPath bindings whose correctness rests on an
argument rather than on a glance: binary encodings, memory copies, protocols with stale callbacks, graph
traversal, pointer merges, stores with eviction, exact decimals and payment URIs. `dafny verify dfyconfig.toml`
checks everything.

How the files follow the program:

| files | the source they model |
|---|---|
| `ByteOrder.dfy`, `FfiCodec.dfy`, `FfiTypes.dfy`, `AsyncCalls.dfy` | the generated Swift binding: byte order of the host and of the wire, writer and reader, every record and enum, the handle map and the poll loop |
| `Unicode.dfy`, `WasmStrings.dfy`, `MutClosure.dfy` | the WebAssembly glue: strings copied into linear memory, the counted closure |
| `Scrubbing.dfy` | what telemetry redacts: texts, and object graphs that may be cyclic |
| `LnSendRecords.dfy`, `TransactionHistory.dfy`, `ActivityHistory.dfy` | the store of Lightning sends and the history list built over it |
| `Decimals.dfy`, `Keyboard.dfy`, `SignificantDigits.dfy`, `SwapFees.dfy` | digit-string amounts, the amount keypad, decimal.js with its twenty digits and the fee gross-up computed with it |
| `UrlParams.dfy`, `Bip21.dfy`, `Bip21RoundTrip.dfy`, `ArkUri.dfy` | query strings and the two payment URI forms |
| `CrossRates.dfy`, `CoinSelection.dfy`, `ActivityMetadata.dfy`, `DocumentSurface.dfy` | the rate merge, coin selection, the bounded metadata store, the surface stack |
| `Options.dfy`, `Numbers.dfy`, `Text.dfy`, `Sorting.dfy` | what the others share: optional values, JavaScript numbers and string operations, `Array.prototype.sort` |

Code that changes things step by step is a method or a class, proved equal to a function of the inputs or
of the old state; the lemmas are about those functions, over all inputs or all runs. JavaScript exceptions
and Swift errors are values of a result type. What comes from outside (the clock, the SDK's address check,
the swap package, regular expressions for invoices and addresses) is a parameter, so each theorem holds for
whatever it does.

Where a promise of the source is not kept for every input, the model keeps the code and states exactly
when the promise holds:

* A recorded spend of a Lightning send is overwritten when the manager's own stamp is an empty text: reading
  prefers any stamp (`??`), the guard before recording ignores an empty one (`LnSendRecords.StepKeepsSpend`).
* Rows of the history list can share a key although all group ids differ (`ActivityHistory.KeysDistinctIff`,
  `DistinctIdsCanClash`); with the ids the resolvers give out they cannot (`KeysDistinct`).
* A saved activity record evicted from the bounded store and saved again has lost its earlier fields. A run agrees
  with one truncation at its end, fields included, exactly when no save is of an evicted transaction with one of
  its fields missing (`ActivityMetadata.RunAgreesIff`); a run of 252 saves loses one (`SomeRunLosesDestination`).
* A closure called after its count reached 0 destroys its environment a second time, with pointer 0
  (`MutClosure.LateCallDestroysAgain`).
* A negative asset amount is encoded into a URI that the decoder refuses (`Bip21RoundTrip.DecodeEncodeAsset`),
  and so is a negative amount of satoshis.
* Rows of one date are listed sent before received (`TransactionHistory.SortLocalTxsOrders`), where the comment on the
  source's sort says the reverse.
* An `ark:` URI gives its pubkey back only if the pubkey has no `?` in it and no blanks around it (`ArkUri.ParseBuilt`).
* Reading a Swift `Bool` accepts any nonzero byte. A buffer is some value lowered exactly when it lifts and every
  byte read as a `Bool` is 0 or 1 (`FfiCodec.LiftIsExactIff`); quote recipients and responses have other buffers
  that lift (`FfiTypes.QuotesAreNotExact`).
* A swap fee is computed with twenty significant digits, so it can be rounded twice. For every payout and rate
  `SwapFees.FeeIsExactIff` says when it is the exact fee all the same: up to a product of twenty digits, when no
  decimals are kept or those kept tell the fraction from a half. Below 10^16 units that is always so
  (`TwentyDigitsSuffice`); at 10^16 a fee one unit too high takes away the payout's recovery (`TwentyDigitsFail`).
* A field of a payment URI is written unescaped and read as form-encoded, so one with a `+` or an escape comes back
  if and only if that reading leaves it as it is (`Bip21RoundTrip.FieldsRecovered`).
* A string with a lone surrogate does not survive the trip through linear memory (`WasmStrings.DecodeOfEncode`).

## Model

| member | source | states |
|---|---|---|
| FfiCodec.DecodeEncode | satspath/sdk/swift/satspath_ffi.swift:82-147 | For every value of every nested type, reading what was written returns that value and stops at its last byte, whatever follows. |
| FfiCodec.DecodeEncodeText | satspath/sdk/swift/satspath_ffi.swift:507-547 | A string field, its length in bytes in front, is read back whatever its characters. |
| FfiCodec.DecodeEncodeOptional | satspath/sdk/swift/satspath_ffi.swift:2830-2996 | An optional field is read back, absent or present, with the tag byte accounted for. |
| FfiCodec.DecodeEncodeSequence | satspath/sdk/swift/satspath_ffi.swift:2998-3093 | A list field is read back element by element from its count. |
| FfiCodec.DecodeEncodeEnum | satspath/sdk/swift/satspath_ffi.swift:2659-2699 | A variant is read back with its payload, so variant numbers never collide. |
| FfiCodec.SignedRoundTrip | satspath/sdk/swift/satspath_ffi.swift:82-97 | A two's complement integer of any width survives the big-endian bytes. |
| FfiCodec.DecodeCut | satspath/sdk/swift/satspath_ffi.swift:82-112 | Cutting a readable buffer anywhere leaves the result alone if the cut is behind what was read, and is an overflow otherwise: no shorter reading exists. |
| FfiCodec.LiftLower | satspath/sdk/swift/satspath_ffi.swift:196-213 | Lifting what was lowered gives the value; every strict prefix overflows; every non-empty extension is incomplete data. |
| FfiCodec.LoweredNumber | satspath/sdk/swift/satspath_ffi.swift:140-147 | A lowered number is its digits in base 256, the highest first, a negative one those of its two's complement. |
| FfiCodec.LoweredOptional | satspath/sdk/swift/satspath_ffi.swift:483-504 | A flag is the byte 0 or 1; an absent value the byte 0, a present one the byte 1 and the value. |
| FfiCodec.LoweredHeads | satspath/sdk/swift/satspath_ffi.swift:507-547 | A string is its length in bytes, spelled in four, and its UTF-8; a list its count and its elements; a variant its number, from 1, and its fields. |
| FfiCodec.LoweredInOrder | satspath/sdk/swift/satspath_ffi.swift:2998-3020 | Elements stand in order with nothing between them. |
| FfiCodec.FieldsInOrder | satspath/sdk/swift/satspath_ffi.swift:1769-1798 | So do the fields of a record. |
| FfiCodec.LoneField | satspath/sdk/swift/satspath_ffi.swift:1769-1798 | A record of one field is that field. |
| FfiCodec.BadTags | satspath/sdk/swift/satspath_ffi.swift:2659-2699 | A presence byte above 1 and a variant number no variant has are refused by their own errors. |
| FfiCodec.BadCounts | satspath/sdk/swift/satspath_ffi.swift:507-547 | A negative length or count and bytes that are no UTF-8 stop the program. |
| FfiCodec.EncodeDecode | satspath/sdk/swift/satspath_ffi.swift:82-147 | Whatever bytes are read as a value of a type give a value of that type, which is written again in as many bytes, and in the same bytes if and only if every byte read as a boolean was 0 or 1. |
| FfiCodec.LiftIsExact | satspath/sdk/swift/satspath_ffi.swift:196-213 | For a type without booleans, lifting accepts exactly the buffers that lowering produces. |
| FfiCodec.LiftIsExactIff | satspath/sdk/swift/satspath_ffi.swift:196-213 | For every type: a buffer is some value lowered if and only if it lifts and every byte read as a boolean is 0 or 1. |
| FfiCodec.SecondBuffer | satspath/sdk/swift/satspath_ffi.swift:483-504 | A record with a boolean set has a second buffer for each byte from 2 to 255: it lifts to the same record, and no record is lowered to it. |
| FfiCodec.Writer.WriteInt | satspath/sdk/swift/satspath_ffi.swift:140-147 | On a host of either byte order the variable is swapped as needed and its memory appended: byte i of w is n / 256^(w-1-i) modulo 256, and what was there before stays. |
| ByteOrder.WrittenBytes | satspath/sdk/swift/satspath_ffi.swift:140-147 | The memory of `value.bigEndian` is the same bytes on a little-endian and on a big-endian host: the most significant first. |
| ByteOrder.ReadBytes | satspath/sdk/swift/satspath_ffi.swift:82-97 | Copying wire bytes into a variable and taking `bigEndian` of it gives the number they spell, on either host. |
| ByteOrder.SpellsBigEndian | satspath/sdk/swift/satspath_ffi.swift:140-147 | The digits of a number in base 256, negative ones as two's complement, fix the bytes on the wire position by position. |
| FfiCodec.Writer.Write | satspath/sdk/swift/satspath_ffi.swift:1769-1798 | Appends the encoding of a whole nested value to the buffer. |
| FfiCodec.Writer.WriteSequence | satspath/sdk/swift/satspath_ffi.swift:2998-3020 | The loop over the elements appends the count and then each element. |
| FfiCodec.Reader.ReadInteger | satspath/sdk/swift/satspath_ffi.swift:82-97 | Returns the integer at the cursor, whatever the byte order of the host, and moves past it, or overflows without moving. |
| FfiCodec.Reader.Read | satspath/sdk/swift/satspath_ffi.swift:1769-1785 | The cursor moves exactly over what decoding the rest of the buffer uses, for every type. |
| FfiCodec.Reader.ReadEach | satspath/sdk/swift/satspath_ffi.swift:2998-3020 | The element loop reads as many values as counted, failing where the first of them fails. |
| FfiCodec.LowerToBuffer | satspath/sdk/swift/satspath_ffi.swift:206-213 | The writer's final buffer is the lowered value. |
| FfiCodec.LiftFromBuffer | satspath/sdk/swift/satspath_ffi.swift:196-204 | The reader, with the check that nothing remains, lifts. |
| FfiTypes.StrictTypes | satspath/sdk/swift/satspath_ffi.swift:1769-1798 | Profiles, signed profiles and quote requests: nothing lifts but what some value is lowered to. |
| FfiTypes.QuotesAreNotExact | satspath/sdk/swift/satspath_ffi.swift:1879-1905 | Quote recipients and responses are not like that: buffers exist that lift although no value is lowered to them. |
| FfiTypes.RecipientSecondBuffer | satspath/sdk/swift/satspath_ffi.swift:1879-1905 | Every recipient with one of its three flags set has such buffers, one for each other nonzero byte. |
| FfiTypes.ResponseSecondBuffer | satspath/sdk/swift/satspath_ffi.swift:2747-2803 | So has the response for a profile whose signature does not hold. |
| AsyncCalls.UniffiHandleMap.Insert | satspath/sdk/swift/satspath_ffi.swift:361-368 | Gives out a handle never given out before and stores under it; at the last 64-bit value it traps and changes nothing. |
| AsyncCalls.UniffiHandleMap.Remove | satspath/sdk/swift/satspath_ffi.swift:379-387 | Takes the entry out, and leaves the counter alone, so that handle is never valid again. |
| AsyncCalls.ApplyKeepsInv | satspath/sdk/swift/satspath_ffi.swift:3099-3139 | Every poll, callback and continuation, stale or duplicate ones included, keeps the bookkeeping of handles and waiting calls. |
| AsyncCalls.ProtocolSafety | satspath/sdk/swift/satspath_ffi.swift:3099-3139 | Over every interleaving: no handle is issued twice, the map holds exactly the continuations not yet resumed, each is resumed at most once, and a call completes at most once, only after a READY result for its own last poll. |
| AsyncCalls.CallbackEnds | satspath/sdk/swift/satspath_ffi.swift:3115-3139 | Progress over every interleaving: whatever happens in between, the callback with a suspended call's own handle resumes it, and its loop test then completes it after READY and makes it poll again after anything else. |
| AsyncCalls.PollIssues | satspath/sdk/swift/satspath_ffi.swift:3115-3123 | A call about to poll, whatever happens before it does, then waits on a handle never issued before; only at the last 64-bit value does nothing happen. |
| AsyncCalls.AsyncRuntime.PollOnce | satspath/sdk/swift/satspath_ffi.swift:3115-3123 | One turn of the poll loop on the real handle map is one step of the protocol. |
| AsyncCalls.AsyncRuntime.OnCallback | satspath/sdk/swift/satspath_ffi.swift:3133-3139 | A callback with any handle is one step of the protocol, a stale one changing nothing. |
| AsyncCalls.AsyncRuntime.AfterResume | satspath/sdk/swift/satspath_ffi.swift:3115-3128 | A resumed call polls again unless its result was READY, and then completes. |
| Unicode.DecodeEncodeUtf8 | wallet/public/satspath-wasm-pkg/satspath_wasm.js:1202-1214 | UTF-8 as section 3 of RFC 3629 has it: strict and replacing decoding both undo encoding. |
| Unicode.EncodeDecodeUtf8 | wallet/public/satspath-wasm-pkg/satspath_wasm.js:1202-1214 | Strict decoding accepts nothing but an encoding: overlong forms, surrogates and cut sequences are refused. |
| Unicode.Utf8KeepsOrder | wallet/public/satspath-wasm-pkg/satspath_wasm.js:1202-1214 | Texts compare as their bytes do (section 1 of RFC 3629), both ways: with the row above this leaves one encoding for each text. |
| Unicode.EncodedDigits | wallet/public/satspath-wasm-pkg/satspath_wasm.js:1159-1194 | The bytes in numbers: the length from the size of the character, its mark and highest digit in base 64 first, then the other digits in order. |
| Unicode.LossyIsStrict | wallet/src/lib/arkUri.ts:44-47 | Decoding with replacement gives what strict decoding gives, or shows a U+FFFD. |
| Unicode.CutSequence | wallet/src/lib/arkUri.ts:44-47 | A sequence cut short becomes one U+FFFD, not one a byte. |
| Unicode.LoneByte | wallet/src/lib/arkUri.ts:44-47 | A byte that starts nothing becomes one U+FFFD. |
| Unicode.SurrogatePair | wallet/public/satspath-wasm-pkg/satspath_wasm.js:1206-1214 | A character above U+FFFF is the two units of its ten high and ten low bits. |
| Unicode.SingleUnit | wallet/public/satspath-wasm-pkg/satspath_wasm.js:1206-1214 | Any other is one unit, its own number. |
| Unicode.ScalarsOfUnits | wallet/public/satspath-wasm-pkg/satspath_wasm.js:1159-1166 | Reading code units gives back every text written in them. |
| Unicode.LoneSurrogate | wallet/public/satspath-wasm-pkg/satspath_wasm.js:1159-1166 | Half a pair reads as one U+FFFD. |
| Unicode.ScalarsFaithful | wallet/public/satspath-wasm-pkg/satspath_wasm.js:1159-1166 | Reading UTF-16 units as characters loses nothing exactly when no surrogate stands alone. |
| WasmStrings.AsciiPrefix | wallet/public/satspath-wasm-pkg/satspath_wasm.js:1173-1183 | An ASCII prefix copied byte by byte, followed by the encoded rest, is the encoding of the whole string. |
| WasmStrings.ThreeBytesSuffice | wallet/public/satspath-wasm-pkg/satspath_wasm.js:1184-1186 | Three bytes a code unit are always enough room, and one is never too much. |
| WasmStrings.DecodeOfEncode | wallet/public/satspath-wasm-pkg/satspath_wasm.js:1206-1214 | Decoding an encoded string always succeeds, and gives that string back if and only if it has no lone surrogate. |
| WasmStrings.Bindings.GetUint8ArrayMemory | wallet/public/satspath-wasm-pkg/satspath_wasm.js:1103-1109 | The cached view is renewed when the memory grew, so it always shows the current buffer. |
| WasmStrings.Bindings.CopyAscii | wallet/public/satspath-wasm-pkg/satspath_wasm.js:1168-1179 | The loop stops at the first non-ASCII unit, with exactly the units before it stored and every other allocation untouched. |
| WasmStrings.Bindings.EncodeInto | wallet/public/satspath-wasm-pkg/satspath_wasm.js:1185-1188 | The engine's encoder never writes past its room, stops only at a character that does not fit, and reports what it read and wrote. |
| WasmStrings.Bindings.EncodeIntoFallback | wallet/public/satspath-wasm-pkg/satspath_wasm.js:1218-1227 | The fallback writes everything or, without room, throws and writes nothing. |
| WasmStrings.Bindings.EncodeTail | wallet/public/satspath-wasm-pkg/satspath_wasm.js:1180-1190 | Growing, encoding the rest and shrinking leaves the bytes already there followed by the encoding, in an allocation of exactly that size. |
| WasmStrings.Bindings.PassStringToWasm | wallet/public/satspath-wasm-pkg/satspath_wasm.js:1159-1194 | With or without reallocation and whichever encoder: a fresh allocation holding exactly the UTF-8 encoding of the whole string, and no other allocation changed. |
| WasmStrings.Bindings.DecodeText | wallet/public/satspath-wasm-pkg/satspath_wasm.js:1202-1214 | Decodes those bytes, cut at the end of memory as `subarray` cuts them, whether or not the decoder had to be replaced, and keeps its byte count below Safari's limit. |
| WasmStrings.SubarrayIs | wallet/public/satspath-wasm-pkg/satspath_wasm.js:1206-1214 | A range is read in order as far as it lies inside the memory. |
| WasmStrings.Bindings.RoundTrip | wallet/public/satspath-wasm-pkg/satspath_wasm.js:1159-1214 | A string passed in and decoded again is the same string if and only if it is well-formed UTF-16. |
| MutClosure.RunKeepsInv | wallet/public/satspath-wasm-pkg/satspath_wasm.js:1124-1150 | Over every nesting of calls the count is the open calls and the owner, and the pointer is held by exactly one frame. |
| MutClosure.DestroyedOnce | wallet/public/satspath-wasm-pkg/satspath_wasm.js:1141-1147 | With the owner's release at any moment the destructor runs once, on the original pointer, if and only if no call started after the count was 0. |
| MutClosure.CountsEvents | wallet/public/satspath-wasm-pkg/satspath_wasm.js:1124-1150 | In terms of the events alone: the count is the calls begun and not ended and the owner if it has not let go; without late calls the environment is destroyed once, with its pointer, exactly when both are gone. |
| MutClosure.DestroyedAfterLastCall | wallet/public/satspath-wasm-pkg/satspath_wasm.js:1134-1147 | Any step that destroys leaves no call open. |
| MutClosure.OnlyOutermostTakesPointer | wallet/public/satspath-wasm-pkg/satspath_wasm.js:1131-1139 | The pointer is in place between calls until destroyed, and 0 inside one, so a nested call never gets it. |
| MutClosure.LateCallDestroysAgain | wallet/public/satspath-wasm-pkg/satspath_wasm.js:1126-1147 | A call after the release destroys a second time, with pointer 0. |
| MutClosure.Closure.Begin | wallet/public/satspath-wasm-pkg/satspath_wasm.js:1131-1135 | Entering a call is the protocol's step, and hands the stored pointer over. |
| MutClosure.Closure.End | wallet/public/satspath-wasm-pkg/satspath_wasm.js:1136-1139 | Leaving a call puts its own pointer back and releases. |
| Scrubbing.ScrubbedTextHasNoLongRun | wallet/src/lib/sentry.ts:26-39 | No text scrubbed in full, addresses last, holds a run of 40 hex digits, whatever the two other patterns match. |
| Scrubbing.HexReplaceMinimal | wallet/src/lib/sentry.ts:26-39 | The hex replacement changes a text if and only if it has such a run. |
| Scrubbing.HexRunIs | wallet/src/lib/sentry.ts:26-26 | The hex pattern takes all the hex digits there are, from forty on. |
| Scrubbing.ReplaceLeftmost | wallet/src/lib/sentry.ts:38-39 | The leftmost match of a pattern is replaced as a whole, what is before it stays, and the search goes on behind it. |
| Scrubbing.ScrubbedIff | wallet/src/lib/sentry.ts:38-39 | A text without the marker stays as it is if and only if none of the three patterns matches anywhere in it. |
| Scrubbing.WholeIsOneMarker | wallet/src/lib/sentry.ts:38-39 | A text that is one invoice, one long run or one address becomes one marker, an invoice also with long runs inside. |
| Scrubbing.ScrubValue | wallet/src/lib/sentry.ts:41-50 | Terminates on every finite graph, cycles included, and only ever marks objects of that graph as seen. |
| Scrubbing.ScrubbedOnce | wallet/src/lib/sentry.ts:41-50 | The objects expanded in the result are those newly seen, each exactly once; the rest mirrors the value, with no long hex run and no sensitive field left. |
| Scrubbing.ExpandsReachable | wallet/src/lib/sentry.ts:38-50 | In a whole report exactly the objects that elements and fields lead to, without passing a sensitive key, are expanded, each once, on cyclic graphs too. |
| Scrubbing.Scrubber.Scrub | wallet/src/lib/sentry.ts:41-50 | The recursion over one shared `seen` set computes that result, every text in it scrubbed by all three patterns. |
| CrossRates.BuildCrossRatePoints | wallet/src/lib/marketData.ts:57-77 | The single forward pointer yields exactly the join of every source point with its last globally nearest market point, within the tolerance, in fewer pointer moves than there are market points. |
| CrossRates.Advance | wallet/src/lib/marketData.ts:66-71 | From anywhere at or before it, the pointer stops exactly at the last nearest market point, counting its moves. |
| CrossRates.LastNearestIsLastNearest | wallet/src/lib/marketData.ts:65-76 | The brute-force search picks a point no other is nearer than, and the last of those. |
| CrossRates.NearestMovesForward | wallet/src/lib/marketData.ts:65-71 | Later source times have nearest points no earlier, so the pointer never has to go back. |
| CrossRates.ClimbToNearest | wallet/src/lib/marketData.ts:66-71 | The loop's step condition holds exactly before the nearest point, equal distances and plateaus included. |
| CrossRates.JoinTimes | wallet/src/lib/marketData.ts:65-76 | Output times are a subsequence of the source times. |
| CrossRates.JoinedIs | wallet/src/lib/marketData.ts:65-77 | A source point has a rate if and only if the last nearest market point is within tolerance: at its time, and times its value the market value. |
| CrossRates.DistanceIs | wallet/src/lib/marketData.ts:68-74 | How far apart two times are: never negative, and reached from either one. |
| CrossRates.JoinAppend | wallet/src/lib/marketData.ts:65-77 | Each source point is joined on its own, in order. |
| CrossRates.JoinOne | wallet/src/lib/marketData.ts:65-77 | A series of one point is that point joined. |
| CrossRates.IntervalIsMedian | wallet/src/lib/marketData.ts:85-93 | The interval is a gap with at most half of the gaps shorter and less than half longer, an hour if there is none. |
| CrossRates.GapsSpan | wallet/src/lib/marketData.ts:85-93 | The gaps are those between neighbours and add up to the whole span. |
| CrossRates.ToleranceIs | wallet/src/lib/marketData.ts:62-62 | The tolerance is the least integer not below one and a half of either interval. |
| CrossRates.FilteredAre | wallet/src/lib/marketData.ts:79-83 | Exactly the points with two finite positive numbers are kept, unchanged. |
| CrossRates.ValidPointsInOrder | wallet/src/lib/marketData.ts:79-83 | Cleaning keeps exactly the points with finite positive time and value, in time order. |
| CoinSelection.Select | wallet/src/lib/asp.ts:80-86 | The loop takes the shortest prefix reaching the target, if any prefix does. |
| CoinSelection.CollaborativeExit | wallet/src/lib/asp.ts:75-100 | It settles if and only if some prefix of the coins reaches the amount, with the shortest one; the destination is paid the amount, the wallet everything else. |
| CoinSelection.CollaborativeExitWithFees | wallet/src/lib/asp.ts:115-148 | The same over the coins soonest expiry first; the destination is paid the output amount, the wallet what the coins exceed the input amount by, and the difference of the two amounts is the fee. |
| CoinSelection.ReachableIffEnough | wallet/src/lib/asp.ts:80-86 | With no negative coin the target is reached exactly when all coins together reach it. |
| CoinSelection.SoonestExpiryFirst | wallet/src/lib/asp.ts:111-126 | No coin left out expires before one taken; coins without an expiry come last; nothing is lost in sorting. |
| CoinSelection.PaidByOutputs | wallet/src/lib/asp.ts:136-145 | The destination comes last with its amount, change only if there is some, and first; the totals to each address and in all add up. |
| ActivityMetadata.SaveIsAppend | wallet/src/lib/storage.ts:67-86 | Under a ticking clock, sorting and slicing amounts to moving the saved transaction to the end and dropping the oldest. |
| ActivityMetadata.TruncateMoved | wallet/src/lib/storage.ts:78-80 | Truncating before a save or only after it makes no difference to what is kept. |
| ActivityMetadata.BoundedIsNewest | wallet/src/lib/storage.ts:67-86 | After any run the bounded store holds the same transactions and times as the newest 250 of the unbounded one. |
| ActivityMetadata.UnboundedHoldsLastSaves | wallet/src/lib/storage.ts:77-77 | The unbounded store has every transaction at its last save. |
| ActivityMetadata.HoldsMostRecent | wallet/src/lib/storage.ts:67-91 | A transaction is missing only if 250 others were saved after it; one present has its last time. |
| ActivityMetadata.FieldOnFile | wallet/src/lib/storage.ts:67-91 | After any run a field on file has the value of the last save that named it while the transaction stayed on file. |
| ActivityMetadata.FieldsAgreeIff | wallet/src/lib/storage.ts:77-77 | The bounded and the unbounded store agree after a save, fields included, if and only if the transaction was not evicted with fields the save does not give. |
| ActivityMetadata.RunAgreesIff | wallet/src/lib/storage.ts:67-86 | Over any run: the bounded store is the unbounded one truncated, fields included, after every save, if and only if no save is of an evicted transaction with a field saved before left out. |
| ActivityMetadata.EvictedFieldIsLost | wallet/src/lib/storage.ts:77-80 | After any 251 saves of different transactions, saving the first again without a field it had loses that field, which the unbounded store still has. |
| ActivityMetadata.SomeRunLosesDestination | wallet/src/lib/storage.ts:77-80 | Such a run exists: 252 saves after which a destination that was saved is gone. |
| ActivityMetadata.Storage.SaveTransactionActivityMetadata | wallet/src/lib/storage.ts:67-86 | The read-modify-write of the stored dictionary is that save; no txid, no change. |
| DocumentSurface.SurfacesShow | wallet/src/lib/documentSurface.ts:22-62 | Over every run, releases repeated or out of order: a managed class is on the root if and only if a live surface carries it, other classes are as they were, and the color is that of the latest live surface having one, else the base, else the page's own. |
| DocumentSurface.ColorShown | wallet/src/lib/documentSurface.ts:22-62 | By index: the color is that of the live surface with one after which none has any; with no such surface the last base, else the page's own. |
| DocumentSurface.ReleasingAllRestores | wallet/src/lib/documentSurface.ts:22-62 | Everything released and no base set leaves the attribute as it was, absent included, and no managed class. |
| DocumentSurface.RunKeepsInv | wallet/src/lib/documentSurface.ts:10-62 | The stack is the live surfaces in order, each flag up exactly while its surface is on the stack. |
| DocumentSurface.DocumentSurfaces.ActivateDocumentSurface | wallet/src/lib/documentSurface.ts:39-50 | Activating pushes the surface and returns a release of its own. |
| DocumentSurface.DocumentSurfaces.CallRelease | wallet/src/lib/documentSurface.ts:50-61 | The first call of a release splices its surface out; every later one does nothing. |
| DocumentSurface.DocumentSurfaces.SetDocumentThemeColor | wallet/src/lib/documentSurface.ts:33-37 | Setting the base color takes effect under the live surfaces. |
| Decimals.UnitsToCentsTruncates | wallet/src/lib/assets.ts:20-27 | On every decimal text, signed or not, parts missing or not, the result is the value times 10^d truncated toward zero, and no exception. |
| Decimals.CentsRoundTrip | wallet/src/lib/assets.ts:17-36 | For every integer and every decimals value, garbage included, converting to text and back loses nothing. |
| Decimals.CentsParts | wallet/src/lib/assets.ts:29-36 | The text of an amount is a canonical decimal: no redundant zero at either end, at most d fraction digits, and the amount's digits. |
| Decimals.PrettyIsExact | wallet/src/lib/assets.ts:55-73 | The displayed amount without its separators is exactly the plain text, a negative fraction's sign included. |
| Decimals.PrettyIsGrouped | wallet/src/lib/assets.ts:55-73 | It is the plain text with the digits before the point grouped, and nothing else changed. |
| Decimals.UngroupGrouped | wallet/src/lib/assets.ts:67-67 | English grouping adds commas and nothing else. |
| Decimals.CommaAt | wallet/src/lib/assets.ts:67-67 | A comma stands before every third digit from the right and nowhere else. |
| Decimals.DigitAt | wallet/src/lib/assets.ts:29-36 | Digit i from the right is n / 10^i modulo 10, and there are no more than the number needs. |
| Decimals.ValOfOne | wallet/src/lib/assets.ts:20-27 | A digit spells its place among the ten. |
| Decimals.PrettyCuts | wallet/src/lib/assets.ts:55-73 | A displayed decimal shows at most the digits allowed, cut and not rounded, trailing zeros dropped. |
| Decimals.ThirdPart | wallet/src/lib/assets.ts:20-27 | A second point and what follows are ignored. |
| Decimals.ConversionIs | wallet/src/lib/assets.ts:17-18 | Whole decimals from 0 to 18 count; anything else is taken for 0. |
| Keyboard.PressKeepsGood | wallet/src/components/Keyboard.tsx:115-146 | No key press makes the text anything but empty or a decimal with no redundant leading zero, one point at most and no more fraction digits than allowed. |
| Keyboard.RunIsGood | wallet/src/components/Keyboard.tsx:115-153 | The same over every sequence of presses and Max presses. |
| Keyboard.TextConvertsExactly | wallet/src/components/Keyboard.tsx:86-90 | Whatever was pressed, the text converts without an exception and to its exact value: nothing is truncated. |
| Keyboard.TypingGives | wallet/src/components/Keyboard.tsx:115-146 | Typing any decimal the mode has room for, key by key, gives that decimal. |
| Keyboard.BackspaceUndoes | wallet/src/components/Keyboard.tsx:125-130 | Backspace undoes any key that took effect, but for the zero a leading point puts in and a zero a digit replaces. |
| Keyboard.NoEffect | wallet/src/components/Keyboard.tsx:115-146 | Exactly which keys have no effect on a decimal. |
| Keyboard.Keypad.HandleKeyPress | wallet/src/components/Keyboard.tsx:115-146 | The handler replaces the text by what the automaton says. |
| Keyboard.Keypad.HandleMaxPress | wallet/src/components/Keyboard.tsx:148-153 | Max fills in a text worth exactly the balance. |
| SwapFees.GrossRecoversNet | wallet/src/lib/swapDisplay.ts:104-138 | A fee exists if and only if the payout is positive and the rate below 100%, and is 0 at rate 0. The rate taken off the gross amount gives the payout back if and only if the fee is within 10000 / (2 (10000 - rate)) of its fraction, which an exact fee is: then the gross amount is within half a unit of exact too. |
| SignificantDigits.NearestIs | wallet/src/lib/swapDisplay.ts:115-115 | `toFixed(0)` of a fraction: the one integer within half a unit of it, halves up. |
| SignificantDigits.PlacesUnique | wallet/src/lib/swapDisplay.ts:112-115 | Twenty significant digits of a quotient end at one decimal place and no other. |
| SignificantDigits.ProductIs | wallet/src/lib/swapDisplay.ts:113-113 | A product of more than twenty digits becomes the nearest integer with zeros past them. |
| SignificantDigits.FixedIs | wallet/src/lib/swapDisplay.ts:112-115 | A quotient of any size, rounded to twenty digits and then printed without decimals, is the one integer that meets two comparisons of integers, in which no rounding is left. |
| SwapFees.FeeIsExactIff | wallet/src/lib/swapDisplay.ts:104-117 | For every payout and rate: the fee computed digit by digit is the exact fraction rounded once if and only if that integer meets those comparisons; with a product of at most twenty digits, if and only if no decimals are kept or the fraction stays clear of the half above it. |
| SwapFees.TwentyDigitsSuffice | wallet/src/lib/swapDisplay.ts:104-117 | So it is for every fee below 10^16 units. |
| SwapFees.TwentyDigitsFail | wallet/src/lib/swapDisplay.ts:104-138 | At 10^16 it need not be: a payout charged one unit too much, whose gross amount gives another payout back. |
| SwapFees.FeeAccuracy | wallet/src/lib/swapDisplay.ts:104-117 | Whatever the payout, the fee is less than one unit off its fraction, or than two parts in 10^19 of it more. |
| SwapFees.OffByOne | wallet/src/lib/swapDisplay.ts:104-117 | So a fee below 10^18 units is at most one unit off the exact one. |
| UrlParams.DecodeEncodeComponent | wallet/src/lib/satspath.ts:150-150 | Percent-encoding (section 2.1 of RFC 3986) survives form decoding for every text, `&`, `=`, `%`, `+` and non-ASCII included. |
| UrlParams.EncodedChars | wallet/src/lib/satspath.ts:150-150 | Encoded text contains no delimiter. |
| UrlParams.EncodedOne | wallet/src/lib/satspath.ts:150-150 | Character by character: letters, digits and nine marks stand for themselves, any other for the escapes of its UTF-8 bytes. |
| UrlParams.EscapeIs | wallet/src/lib/satspath.ts:150-150 | An escape is `%` and the two digits of the byte in base 16, in capitals. |
| UrlParams.FormReads | wallet/src/lib/bip21.ts:46-46 | Form decoding reads a `+` as a blank, a `%` without two digits as itself, and so any other character. |
| UrlParams.FormReadsEscape | wallet/src/lib/bip21.ts:46-46 | And an escape, in capitals or small letters, as its byte. |
| UrlParams.HexValues | wallet/src/lib/bip21.ts:46-46 | The sixteen digits, in capitals and small letters. |
| UrlParams.OddPieces | wallet/src/lib/bip21.ts:46-46 | A leading `?` is dropped, an empty piece skipped, a piece without `=` has an empty value. |
| UrlParams.GetFirst | wallet/src/lib/arkUri.ts:46-47 | Of several parameters with one name the first counts. |
| UrlParams.PlainDecodes | wallet/src/lib/bip21.ts:46-46 | Text without escapes or delimiters is decoded to itself. |
| UrlParams.ParseJoinedPairs | wallet/src/lib/arkUri.ts:42-46 | A joined query parses to its pairs, none running into another. |
| Bip21.FindParam | wallet/src/lib/bip21.ts:50-55 | The loop returns the first value under a key of that name, whatever its case. |
| Bip21.DecodeBip21 | wallet/src/lib/bip21.ts:20-86 | Filling the result field by field computes the decoder's meaning, with its three failures. |
| Bip21RoundTrip.EncodeText | wallet/src/lib/bip21.ts:88-96 | Cutting the last delimiter leaves exactly the present fields joined, and the bare address when there is none. |
| Bip21RoundTrip.DecodeOfUri | wallet/src/lib/bip21.ts:31-46 | The decoder reads back exactly the address and the parameters of such a text, their escapes decoded. |
| Bip21RoundTrip.DecodeEncode | wallet/src/lib/bip21.ts:20-96 | For every set of fields that do not run into each other: the decoded URI is the address, the valid Ark address, the invoice or else the lnurl, each read as form-encoded, and the exact satoshis; a negative amount is the one refusal. |
| Bip21RoundTrip.FieldsRecovered | wallet/src/lib/bip21.ts:20-96 | Each field comes back if and only if reading it as form-encoded leaves it as it is and it meets the decoder's own test for it. |
| Bip21RoundTrip.BitcoinTextReadsAs | wallet/src/lib/format.ts:8-14 | The amount written for any number of satoshis is read as exactly that number, a negative one as negative. |
| Bip21RoundTrip.AssetTextForm | wallet/src/lib/bip21.ts:65-67 | The text of an asset amount passes the decoder's pattern if and only if it is not negative. |
| Bip21RoundTrip.DecodeEncodeAsset | wallet/src/lib/bip21.ts:60-100 | The asset form decodes if and only if the amount is not negative, and then to an amount worth exactly the cents encoded. |
| Bip21RoundTrip.DecodeOnchainQr | wallet/src/lib/satspath.ts:143-144 | The on-chain QR text of a quote decodes to the same address and the exact satoshis, or is refused when negative. |
| Bip21RoundTrip.KeysIgnoreCase | wallet/src/lib/bip21.ts:48-55 | The case of the keys makes no difference to any outcome. |
| Bip21RoundTrip.Refusals | wallet/src/lib/bip21.ts:31-71 | A text is refused if and only if it lacks the scheme, in any case, or its amount is, with an asset, no plain decimal, or, without one, no finite number of at least 0. |
| Bip21RoundTrip.FieldsRead | wallet/src/lib/bip21.ts:41-82 | What is not refused, whatever the parameters: each field comes from the first parameter of its name and no other; the amount goes to the asset if one is named and is satoshis otherwise. |
| Bip21RoundTrip.DecodeBehindScheme | wallet/src/lib/bip21.ts:31-44 | Behind the scheme the address ends at the first `?` and the query at the second. |
| Bip21RoundTrip.BlankNumber | wallet/src/lib/bip21.ts:69-71 | A blank amount is 0. |
| Bip21RoundTrip.AssetAmountIs | wallet/src/lib/bip21.ts:65-67 | The pattern of asset amounts in words: digits, and digits after a point if there is one. |
| Bip21RoundTrip.GetParamFirst | wallet/src/lib/bip21.ts:50-55 | Of several parameters with one name, in any case, the first counts. |
| Bip21RoundTrip.LightningIs | wallet/src/lib/bip21.ts:75-82 | An lnurl starts with those five letters in any case, an invoice with the first two and not the five. |
| Bip21RoundTrip.SatoshisIs | wallet/src/lib/format.ts:12-14 | An amount in bitcoin is read as the whole satoshis it covers. |
| Text.TrimIs | wallet/src/lib/bip21.ts:31-31 | Trimming takes the blanks off both ends and nothing else. |
| Text.WhiteIs | wallet/src/lib/bip21.ts:31-31 | Which characters are blanks. |
| Text.LowerIs | wallet/src/lib/bip21.ts:33-33 | Capital letters become the small ones in their places, and for the keys and schemes compared nothing else changes. |
| ArkUri.ParseOfUri | wallet/src/lib/arkUri.ts:28-55 | Parsing a printed URI gives the trimmed pubkey, and any server and integer amount as they were. |
| ArkUri.ParseBuilt | wallet/src/lib/satspath.ts:145-151 | A printed URI parses to its own pubkey, server and amount if and only if the pubkey has no `?` and no blanks around it. |
| ArkUri.NativePassesThrough | wallet/src/lib/satspath.ts:146-148 | A native address is printed as it is, which the URI parser refuses. |
| ArkUri.ParseBare | wallet/src/lib/arkUri.ts:28-40 | Without a query the rest is the pubkey; without the scheme the text is refused. |
| ArkUri.ParseIntPrefix | wallet/src/lib/arkUri.ts:48-48 | An amount is read as far as its digits go, under its sign. |
| ArkUri.ParseIntNone | wallet/src/lib/arkUri.ts:48-48 | An amount without a digit to start with is no number. |
| ArkUri.OtherRails | wallet/src/lib/satspath.ts:140-154 | What is printed for the other methods, and nothing where something needed is missing. |
| ArkUri.NativeIs | wallet/src/lib/satspath.ts:147-148 | What a native address starts with. |
| LnSendRecords.StepKeeps | wallet/src/lib/lnSendRecords.ts:128-135 | One operation writes no unknown swap and changes no record's origin. |
| LnSendRecords.StepWrites | wallet/src/lib/lnSendRecords.ts:128-171 | What one operation writes: the package's update of a stored swap, or the observed txid into a stored record without an ending; everything else stays. |
| LnSendRecords.RunKeeps | wallet/src/lib/lnSendRecords.ts:128-171 | Over any run the stored swaps stay the same swaps, each with its origin and its funding txid. |
| LnSendRecords.StepKeepsSpend | wallet/src/lib/lnSendRecords.ts:162-171 | A recorded spend survives an operation if and only if it is no re-observation of another txid on a record whose stamp is empty. |
| LnSendRecords.KeptIffNeverOverwritten | wallet/src/lib/lnSendRecords.ts:128-171 | The same over every state of a run. |
| LnSendRecords.RecordedSpendIsFinal | wallet/src/lib/lnSendRecords.ts:165-171 | While no empty txid is ever stamped, a recorded spend never changes once set. |
| LnSendRecords.EmptyStampIsOverwritten | wallet/src/lib/lnSendRecords.ts:162-171 | A run of three operations on a fresh record: an observation, a pass that stamps an empty refund txid, another observation. The second replaces the first, under an update that keeps every promise made of it. |
| LnSendRecords.FirstObservationStands | wallet/src/lib/lnSendRecords.ts:162-171 | A record with an ending is left alone; otherwise the observed txid is recorded, and answers for the record unless an empty stamp hides it. |
| LnSendRecords.ViewsOfRecords | wallet/src/lib/lnSendRecords.ts:256-277 | The views are exactly those of the stored sends with a funding txid. |
| LnSendRecords.ViewSays | wallet/src/lib/lnSendRecords.ts:256-267 | A view has its record's id, state, time and amount, 0 for none, and exists exactly with a funding txid. |
| LnSendRecords.FundingIs | wallet/src/lib/lnSendRecords.ts:149-150 | Which transaction counts as the funding: the record's own field, else a non-empty text in its profile. |
| LnSendRecords.SpendIs | wallet/src/lib/lnSendRecords.ts:162-163 | Which as the end: the stamped refund, else the first stamped spend, else the recorded one. |
| LnSendRecords.ViewsInOrder | wallet/src/lib/lnSendRecords.ts:270-277 | Views are in the order of their records. |
| LnSendRecords.ViewsDistinct | wallet/src/lib/lnSendRecords.ts:256-277 | No two views share a swap. |
| LnSendRecords.ActivityInputsAdd | wallet/src/lib/lnSendRecords.ts:302-319 | The grouping inputs keep their order and txids; one txid is added if and only if a refunded send has a recorded spend that is not there yet, so none is ever doubled. |
| LnSendRecords.RetainedKeeps | wallet/src/lib/lnSendRecords.ts:198-202 | Pruning removes sends past their retention and nothing else. |
| LnSendRecords.RestoredAre | wallet/src/lib/lnSendRecords.ts:188-216 | The swaps to drive are exactly the rebuilds of the sends that are retained, have not ended and can be rebuilt. |
| LnSendRecords.RestoredInOrder | wallet/src/lib/lnSendRecords.ts:202-216 | They are in the order of their records. |
| LnSendRecords.Store.SaveSwapUpdate | wallet/src/lib/lnSendRecords.ts:128-135 | Replaces the stored record by its update, or leaves the store alone when there is none. |
| LnSendRecords.Store.RecordSpendTxid | wallet/src/lib/lnSendRecords.ts:167-171 | Adds the txid to the profile of a record without an ending, and otherwise changes nothing. |
| LnSendRecords.Store.RestoreLnSendSwaps | wallet/src/lib/lnSendRecords.ts:188-216 | The loop, removing while it reads, keeps exactly the retained records and returns the rebuilt live ones in order. |
| TransactionHistory.SortLocalTxsOrders | wallet/src/lib/transactionHistory.ts:36-43 | Although the comparator contradicts itself between two sent or two received rows of one date, any sort that loses nothing and leaves no neighbours the comparator did not order gives a permutation with undated rows first, then the newest, and within a date the sent before the received ones. |
| TransactionHistory.TransactionRow | wallet/src/lib/transactionHistory.ts:14-34 | A row has its transaction's amount, signed by direction, its three txids, its second, what an explorer can open, its flags, and the saved facts, those on a payment's target only if it was sent. |
| TransactionHistory.TxidIs | wallet/src/lib/transactionHistory.ts:7-8 | A transaction goes by the first of its three txids that is there. |
| TransactionHistory.EnginesSort | wallet/src/lib/transactionHistory.ts:36-43 | Insertion sort and merge sort under this comparator are such sorts. |
| Sorting.VouchedSorts | wallet/src/lib/transactionHistory.ts:37-43 | A list whose neighbours a comparator ordered, a comparator wrong only between equivalent elements, is sorted by class. |
| Sorting.SortVouches | wallet/src/lib/transactionHistory.ts:37-43 | However the comparator behaves, insertion sort leaves no neighbours it did not order. |
| Sorting.MergeVouches | wallet/src/lib/transactionHistory.ts:37-43 | Nor does merging two runs, if neither run has any. |
| Sorting.SortStable | wallet/src/lib/asp.ts:126-126 | With a consistent comparator, elements it does not tell apart keep their order. |
| ActivityHistory.ActivitiesToTxs | wallet/src/lib/activityHistory.ts:200-253 | The two loops build the rows of all groups and of the ungrouped sends, listed in date order. |
| ActivityHistory.RowKeys | wallet/src/lib/activityHistory.ts:200-251 | One row a collapsed group, one a member of any other, one a stored send no group carries: their keys, in row order. |
| ActivityHistory.LightningSendRow | wallet/src/lib/activityHistory.ts:70-99 | A Lightning send is one row: its first sent transaction's, with the group's signed net amount, name and outcome, that txid as funding, and the spend of the first stored send it funded. |
| ActivityHistory.LightningReceiveRow | wallet/src/lib/activityHistory.ts:117-133 | A Lightning receive is one row: its claim's, with the group's signed net amount, name and outcome, and no funding txid. |
| ActivityHistory.AssetSwapRow | wallet/src/lib/activityHistory.ts:222-236 | A stored asset swap is one row: the builder's, given the members' rows, each saved fact of the funding transaction taking the place of its own. |
| ActivityHistory.MemberRow | wallet/src/lib/activityHistory.ts:239-242 | Any other group has a row for each member, its own transaction's. |
| ActivityHistory.StoredSendRow | wallet/src/lib/activityHistory.ts:161-191 | A stored send's row: the amount out, its time, funding and spend, and as outcome its state if that is an ending, else pending. |
| ActivityHistory.WhenCollapsed | wallet/src/lib/activityHistory.ts:204-224 | Exactly which groups become one row. |
| ActivityHistory.OnlyTheseRows | wallet/src/lib/activityHistory.ts:200-253 | No other row is listed. |
| ActivityHistory.NothingDropped | wallet/src/lib/activityHistory.ts:195-251 | For every transaction of every group, the row built for it, its own or the one its group collapses to, is in the list. |
| ActivityHistory.NoSendDropped | wallet/src/lib/activityHistory.ts:244-252 | The row of every stored send is in the list, unless a group carries it. |
| ActivityHistory.KeysDistinctIff | wallet/src/lib/activityHistory.ts:237-251 | With distinct groups and sends and txids free of colons, all keys differ if and only if no txid is listed twice in a spread group, no collapsed id equals a member key and no send's key a group's. |
| ActivityHistory.KeysDistinct | wallet/src/lib/activityHistory.ts:237-251 | With the ids the resolvers give out, all keys differ. |
| ActivityHistory.DistinctIdsCanClash | wallet/src/lib/activityHistory.ts:237-242 | Distinct group ids alone are not enough: a collapsed group named like another group's member shares its key. |
| ActivityHistory.HandoverKeepsKeys | wallet/src/lib/activityHistory.ts:153-191 | When the group of a stored send appears, anywhere in the list, its row takes over the key: no key is gained, lost or doubled. |
| ActivityHistory.HandoverKeepsReceipt | wallet/src/lib/activityHistory.ts:70-99 | The row that takes over names the same transaction, receipt and saved facts as the stored row it replaces, and for a send in flight the same amount going out. |

## Left out

- React components, routing and drawers; the network, relays, camera and clipboard; signatures, key derivation, address encoding and the SDK's own grouping of transactions.
- The Rust code behind the binding and the compiled WebAssembly: only the glue around them is modelled.
- FfiCodec: bare strings passed without a length (`FfiConverterString.lift` and `lower`), the resolver-chain pointer and `Float` are not modelled; doubles are their bit patterns.
- AsyncCalls: one callback or poll is one atomic step, as the lock makes it; errors raised by `completeFunc` are not told apart.
- Scrubbing: invoices and addresses are recognised by arbitrary matchers in place of the two regular expressions; the breadcrumb and event wrappers are not modelled. Object keys are copied, as in the source, so what is proved clean are the values.
- Scrubbing.ScrubValue: models objects as arrays and plain records; a getter that throws or runs forever is not modelled.
- CrossRates: times and values are exact rationals, so the quotient of two values is not rounded.
- CoinSelection: amounts are integers; `redeemNotes` and `settleVtxos` only add up what they are given.
- ActivityMetadata: keys that look like array indices, which JavaScript lists first, do not occur among txids; a failing `localStorage` is not modelled.
- Decimals: the `tidy` abbreviations, locales other than English, and the whitespace and hexadecimal forms `BigInt` also accepts are not modelled.
- Decimals.UnitsToCentsTruncates: is about decimal texts; on other texts the model says only whether `BigInt` throws.
- Keyboard: the text automaton in asset mode only; the sats, bitcoin and fiat modes differ in their Max text, which comes from floating point.
- SwapFees: rates are whole basis points, as the stored quotes have them.
- Bip21: `Number` on texts that are no plain decimals (exponents, `0x`, `Infinity`) is a parameter; satoshi amounts are exact decimal text, as they are below the supply of 21 million bitcoin; lone surrogates are not modelled.
- Bip21RoundTrip.DecodeEncode: assumes fields without blanks and without `&` and `?`, and an address without blanks and `?`; the encoder escapes nothing, so a field with `&` or `?` is cut there.
- ArkUri: amounts are integers printed in full, as JavaScript does up to 2^53; `encodeURIComponent` throws on a lone surrogate, which a text here cannot hold; resolving a URI to a native address is cryptography.
- LnSendRecords: `updateRfqSwapRecord` is any function that keeps the origin half, takes the state and the lockup's spends from the live swap, and the refund from either; failures of the repository and races between its asynchronous operations are not modelled.
- TransactionHistory.SortLocalTxsOrders: says nothing about the order of two sent or of two received rows of one date, where the comparator is inconsistent; the sort is any function that permutes its input and leaves no neighbours the comparator did not order.
- ActivityHistory: the asset-swap row builder is an arbitrary function; `buildConstantMarketSeries`, labels and receipts are not modelled.
