# BMP stream filter — a verified model

`bmp_filter.py` reads a file of back-to-back BMP messages (BGP Monitoring
Protocol, RFC 7854). It walks the file by the length field of each message's
Common Header. It copies to the output file the messages whose type the user
asked for, and it counts every message as kept or discarded per type. This
project models that core in Dafny and proves what it does:

- **Common Header decoder** (`BmpHeader`). `decode_common_header` is modelled as the
  version byte, the four length bytes read big-endian unsigned, and the type byte.
  Neither value is validated. A buffer shorter than six bytes is the `None` case,
  because the source raises `IndexError` on `header[5]`. The decoder is proved
  lossless on the first six bytes, and the inverse of the six-byte encoding.
- **Filter map** (`FilterMap`). `args_to_filter_map` is a map over the seven known
  types 0..6 (the `message_type_map` keys). It holds `not flag`, so `True` means
  discard. The model proves:
  - it loses no flag;
  - a type is kept exactly when it is known and its flag is set;
  - with no flag, nothing is kept.
- **Statistics** (`Stats`). The `Statistics` object is a class with the two counter
  sets `kept` and `discarded`, each a sequence of seven counters indexed by type
  code. The constructor zeroes them. `Record` is one `+= 1`: exactly one counter
  goes up, and every other counter is unchanged.
- **Framing walk** (`Framing`). A pure recursive `Walk(buf, head)` is the
  specification of the loop: the frames it visits, and why it stops. From the
  frames, `Output` and `Tally` are the output file and the counters. Proved about them:
  - the frames form a chain on well-formed headers;
  - the walk stops for exactly the reason the bytes at its last cursor give;
  - each counter counts the frames of its type with its decision;
  - the counters sum to the number of frames;
  - for a buffer made of N whole messages:
    - the walk visits the N prefix-sum offsets and finishes;
    - the output is the kept messages, byte for byte and in order;
    - the counters add up to N;
    - filtering the output again changes nothing.
- **The filter loop** (`BmpFilter`, `LoopInvariant`). `FilterStream` is the `while`
  loop of `main`. It mutates a `Statistics` object and appends to an output
  sequence, and it is proved against the walk. Its loop invariant is that after
  `k` turns, the cursor, the output and both counter sets are those of the walk's
  first `k` frames.
- **The loop as written** (`LoopAsWritten`). This is the body of the source loop
  exactly as written, iterated `n` times. The model proves it agrees with the walk
  on every frame. Where the walk reports a truncated header or an unknown type,
  the as-written loop raises. Where the walk reports a declared length of zero,
  the as-written loop's cursor never moves again (see Findings).
- **Worked example** (`WorkedExample`). The two-message stream is a Route
  Monitoring message of 12 bytes, then a Peer Down message of 8 bytes. With only
  `--peer-down`, the output is exactly the second message, and each type counts
  one message.

The code does not validate its input; the model follows the code:

- **Message length is not checked.** The code never checks `message_length`
  against the header size or the end of the buffer.
  - A length that overruns the buffer makes the slice `inp_map[head:head+msg_length]`
    clamp. The last message is written truncated and the loop ends normally.
    `Slice` models Python's clamping.
  - A length of 1..5 is accepted. The next header is read from inside the
    current one.
- **Unknown type codes raise.** A type code above 6 raises `KeyError` before any
  count or write. The model reports it as the
  `UnknownType` error.
- **Short trailing fragment.** A remainder shorter than six bytes fails in the
  decoder, so the model reports `TruncatedHeader`.
- **Empty input file.** `mmap.mmap(fileno, 0)` raises `ValueError` on an empty
  file. That happens before the output file is opened and before the loop starts,
  so nothing is written and no statistics are printed. `RunFilter` reports this
  as the outcome `EmptyInputFile`.
- **Length zero.** The source loops forever. The corrected model reports it as
  `ZeroLength`, and the loop exactly as written is modelled beside it.
- **Offsets of errors.** Each error carries the offset of the message where it
  happened. The output and the counters are those produced before that message.
  That is the state the output file and the counters are left in when the
  source raises.

## Model

| member | source | states |
|---|---|---|
| BmpHeader.FromBigEndian | bmp_filter.py:161 | `int.from_bytes(..., 'big', signed=False)`: the value of `n` bytes is below 256^n |
| BmpHeader.FromBigEndianFour | bmp_filter.py:161 | on the four length bytes, `int.from_bytes` is b1·2^24 + b2·2^16 + b3·2^8 + b4 |
| BmpHeader.FromToBigEndian | bmp_filter.py:161 | reading back the `width` big-endian bytes of any `n < 256^width` gives `n` |
| BmpHeader.ToFromBigEndian | bmp_filter.py:161 | writing back the value of any byte string at its own width gives the same bytes |
| BmpHeader.DecodeCommonHeader | bmp_filter.py:159-163 | the decoder succeeds exactly when at least six bytes are given; the length it returns is an unsigned 32-bit value |
| BmpHeader.DecodeEncode | bmp_filter.py:159-163 | every header with a 32-bit length decodes back from its six-byte encoding |
| BmpHeader.EncodeDecode | bmp_filter.py:159-163 | on six or more bytes, decoding succeeds and loses nothing of the first six: version is byte 0, length is bytes 1..4 big-endian, type is byte 5, with no validation |
| FilterMap.ArgsToFilterMap | bmp_filter.py:147-156 | the filter map has exactly the keys 0..6, and type t maps to true (discard) exactly when its include flag is unset |
| FilterMap.FlagsOf | bmp_filter.py:147-156 | from a map over the known types the flags are read back: a known type's flag is set exactly when the map keeps it |
| FilterMap.FilterMapRoundTrip | bmp_filter.py:147-156 | the filter map loses no flag: the flags read back from it are the flags it was built from |
| FilterMap.KeptIffIncluded | bmp_filter.py:147-156 | a type is kept exactly when it is one of 0..6 and its include flag was given (allow-list) |
| FilterMap.NoFlagsKeepsNothing | bmp_filter.py:147-156 | with no include flag, no type is kept |
| Stats.Bump | bmp_filter.py:179 | `counter[t] += 1` raises the counter of type t by one and leaves every other counter as it was |
| Stats.Record | bmp_filter.py:178-182 | classifying a message raises exactly one counter, the kept or the discarded one of its type; every other counter is unchanged |
| Stats.RecordTotal | bmp_filter.py:178-182 | classifying a message of a known type adds exactly one to the sum of all fourteen counters |
| Stats.Statistics.constructor | bmp_filter.py:30-50 | a fresh object has seven kept and seven discarded counters, all zero |
| Framing.Slice | bmp_filter.py:177-180 | Python's `buf[lo:hi]` for `lo <= hi`: the plain slice when `hi` is inside the buffer, the suffix from `lo` when only `lo` is, and empty when `lo` is at or past the end |
| Framing.HeaderAtDecodes | bmp_filter.py:176-177 | the header the walk reads at a cursor is what the decoder makes of the (clamped) six-byte slice there |
| Framing.ErrorAtBytes | bmp_filter.py:176-178 | at a cursor that cannot step: a truncated header means fewer than six bytes remain; an unknown type means a complete header whose type byte is above 6; a zero length means a complete header of known type whose four length bytes are zero |
| Framing.Walk | bmp_filter.py:175-184 | the walk from a cursor visits at most as many frames as there are bytes left |
| Framing.WalkAdvance | bmp_filter.py:176-184 | at a cursor inside the buffer with a complete header of known type and positive length, the walk visits that frame and continues `length` bytes on |
| Framing.WalkChained | bmp_filter.py:175-184 | every visited frame sits on a complete header that it carries, of known type and positive length; the first starts at the start cursor; each next one starts exactly `length` bytes after the previous |
| Framing.WalkHalts | bmp_filter.py:175-184 | at the cursor after its last frame, the walk has finished if the cursor is at or past the end; otherwise the bytes there cannot step and the error is the one they give |
| Framing.WalkAt | bmp_filter.py:175-184 | seen from its k-th cursor: the walk has a k-th frame exactly when the bytes there advance, that frame is the header read there, and otherwise the walk halts with the error those bytes give, or finished past the end |
| Framing.WalkStep | bmp_filter.py:184 | where the bytes at the k-th cursor advance, the k-th frame is the header there and the next cursor is exactly `length` bytes on |
| Framing.WalkFrameAt | bmp_filter.py:175-184 | the k-th frame starts where the first k frames end, on a well-formed header |
| Framing.Output | bmp_filter.py:175-184 | the output file after the loop visited a run of frames: the kept frames' slices in visiting order. It has no contract of its own; `OutputSingle`, `OutputNext`, `OutputConcat`, `NoFlagsDiscardsAll` and `OutputMessages` state what it is |
| Framing.Tally | bmp_filter.py:178-182 | the counters after the loop visited a run of frames: seven kept and seven discarded counters; `TallyCounts` and `TallyTotal` state what they count |
| Framing.OutputSingle | bmp_filter.py:178-182 | the output of one visited message is the slice written for it, or nothing if it is discarded |
| Framing.OutputNext | bmp_filter.py:178-182 | visiting one more message appends its piece to the output: earlier output is never changed |
| Framing.OutputKeptNext | bmp_filter.py:180 | visiting one more kept message appends exactly the bytes `[head, head+length)` (clamped) |
| Framing.OutputDiscardedNext | bmp_filter.py:181-182 | visiting one more discarded message writes nothing |
| Framing.TallyKeptNext | bmp_filter.py:179 | visiting one more kept message raises its kept counter by one and changes nothing else |
| Framing.TallyDiscardedNext | bmp_filter.py:182 | visiting one more discarded message raises its discarded counter by one and changes nothing else |
| Framing.OccurrencesLast | bmp_filter.py:178-182 | the reference count of messages of a type and decision splits into the messages before the last and the last |
| Framing.TallyCounts | bmp_filter.py:178-182 | each kept and discarded counter equals the number of visited messages of that type with that decision |
| Framing.TallyTotal | bmp_filter.py:178-182 | when every visited type is known, the fourteen counters add up to the number of visited messages |
| Framing.OutputConcat | bmp_filter.py:175-184 | the output of two runs of frames in sequence is the output of the first followed by that of the second |
| Framing.NoFlagsDiscardsAll | bmp_filter.py:178-182 | with no include flag, the output is empty and every kept counter is zero, for any frames |
| Framing.MessageHeader | bmp_filter.py:159-163 | the header at the start of a whole message declares its own size and type |
| Framing.FramesOfAt | bmp_filter.py:175-184 | the i-th frame of messages laid end to end starts at the sum of the lengths before it and carries the i-th message's header |
| Framing.SuffixStep | bmp_filter.py:176-184 | where the bytes from a cursor are whole messages, the first one's header is read there, its bytes follow, and the rest start `length` bytes on |
| Framing.WalkFirstMessage | bmp_filter.py:176-184 | at the first of those messages the walk visits its frame, then continues as from the second |
| Framing.WalkMessages | bmp_filter.py:174-184 | where the bytes from a cursor are whole messages, the walk visits exactly their frames, in order, and finishes |
| Framing.PieceOfMessage | bmp_filter.py:178-182 | the bytes written for a whole message in the buffer are that message if its type is kept, and nothing otherwise |
| Framing.OutputFirstMessage | bmp_filter.py:178-184 | the output of those messages is the first one if kept, followed by the output of the rest |
| Framing.OutputMessages | bmp_filter.py:174-184 | the output over whole messages is the concatenation of the kept messages, byte for byte and in order |
| Framing.FlattenKeptMessages | bmp_filter.py:178-182 | the kept messages of a sequence, concatenated, are the first if kept followed by the kept ones of the rest |
| Framing.WellFormedStream | bmp_filter.py:174-184 | for a buffer of N whole messages: the walk finishes; it visits N frames; frame i is at the sum of the lengths before it and declares the length of message i; the output is the kept messages in order; the counters sum to N |
| Framing.KeptMessagesAreMessages | bmp_filter.py:178-182 | the kept messages are whole messages again, and keeping them a second time keeps them all |
| Framing.FilterIdempotent | bmp_filter.py:174-184 | walking and filtering the output of a well-formed stream again with the same map gives that output back (an empty output as a program input would instead stop at `mmap`, see `RunFilter`) |
| LoopInvariant.Visited | bmp_filter.py:174-184 | the loop's cursor, output and counters once it has visited the first `k` frames of the walk. It has no contract of its own; `VisitKept`, `VisitDiscarded` and `VisitEnd` state how the loop moves through it |
| LoopInvariant.VisitKept | bmp_filter.py:178-184 | one turn on a kept frame copies its slice, bumps its kept counter and moves the cursor by its length, which is the state after one more frame |
| LoopInvariant.VisitDiscarded | bmp_filter.py:181-184 | one turn on a discarded frame bumps its discarded counter and moves the cursor by its length, writing nothing, which is the state after one more frame |
| LoopInvariant.VisitEnd | bmp_filter.py:175 | where the loop stops, at the end or on bytes that cannot step, it has visited the whole walk, and the walk's halt reason is the one at that cursor |
| LoopInvariant.StepKept | bmp_filter.py:176-184 | at a cursor with a complete, known, positive-length, kept header, the walk has a next frame, and one turn reaches the state after it |
| LoopInvariant.StepDiscarded | bmp_filter.py:176-184 | the same for a discarded header |
| BmpFilter.ReadHeader | bmp_filter.py:176-177 | decoding the six-byte slice at the cursor yields the header read there, or none when fewer than six bytes remain |
| BmpFilter.FilterStream | bmp_filter.py:174-184 | the loop: its halt reason, output and both counter sets are those of the framing walk over the input |
| BmpFilter.RunFilter | bmp_filter.py:166-184 | an empty input stops at `mmap` with nothing written and zero counters, and only an empty input does; any other input, filtered with the map built from the flags and fresh counters, gives the walk's halt reason, output and counters |
| LoopAsWritten.BodyAsWritten | bmp_filter.py:176-184 | one pass of the loop body exactly as written, none where it raises. It has no contract of its own; `BodyDecodes`, `BodyRaises` and `BodySpins` state what it does |
| LoopAsWritten.AfterTurns | bmp_filter.py:175-184 | the loop exactly as written after `n` turns, none once it has raised. It has no contract of its own; `LoopFollowsWalk`, `RaisingAgrees` and `ZeroLengthSpins` relate it to the walk |
| LoopAsWritten.BodyDecodes | bmp_filter.py:176-184 | one pass of the body as written at a complete header of known type: copy the slice if kept, record the message, add the declared length to the cursor |
| LoopAsWritten.BodyOnFrame | bmp_filter.py:175-184 | on the next frame of a chain, the cursor is inside the buffer and one pass of the body as written reaches the state after one more frame |
| LoopAsWritten.BodyRaises | bmp_filter.py:176-178 | at fewer than six bytes, or at a header whose type is not 0..6, the body as written raises |
| LoopAsWritten.BodySpins | bmp_filter.py:184 | at a complete header of known type and length zero, the body as written leaves the cursor where it is |
| LoopAsWritten.LoopFollowsWalk | bmp_filter.py:175-184 | after as many turns as the walk has frames so far, the loop as written has not raised, and its cursor, output and counters are those of the walk |
| LoopAsWritten.TurnFollowsWalk | bmp_filter.py:175-184 | one more turn of the loop as written on the walk's next frame visits that frame |
| LoopAsWritten.LoopAtWalkEnd | bmp_filter.py:175-184 | after one turn per frame of the walk, the loop as written is at the walk's final cursor with the walk's output and counters, and the walk halted for the reason the bytes there give |
| LoopAsWritten.FinishedAgrees | bmp_filter.py:175 | when the walk finishes, the loop as written ends with its cursor at or past the end and the walk's output and counters |
| LoopAsWritten.RaisingAgrees | bmp_filter.py:176-178 | when the walk stops on a truncated header or an unknown type, the next turn of the loop as written raises |
| LoopAsWritten.ZeroLengthReached | bmp_filter.py:175-184 | when the walk stops on length zero, the loop as written reaches that cursor, inside the buffer, on a stuck header |
| LoopAsWritten.TurnSpins | bmp_filter.py:184 | a turn of the loop as written at a stuck cursor leaves it there |
| LoopAsWritten.SpinsFrom | bmp_filter.py:175-184 | once the cursor of the loop as written is stuck, it is still there after any later number of turns |
| LoopAsWritten.ZeroLengthSpins | bmp_filter.py:175-184 | when the walk stops on length zero, the loop as written has not raised after any number of turns from the walk's frame count on, and its cursor is still that offset, inside the buffer, so `head < len` stays true |
| LoopAsWritten.SpinningStreamHeader | bmp_filter.py:159-163 | the stream 03 00 00 00 00 00 holds a header of version 3, length 0, type 0, stuck at cursor 0 |
| LoopAsWritten.SpinningStreamWalk | bmp_filter.py:175-184 | the corrected walk over that stream stops at once with a zero-length error at offset 0 |
| LoopAsWritten.StuckFromStart | bmp_filter.py:175-184 | a stream starting with a stuck header keeps the loop as written at cursor 0 after any number of turns |
| LoopAsWritten.ZeroLengthExample | bmp_filter.py:175-184 | whatever the include flags, the loop as written over 03 00 00 00 00 00 is still at cursor 0 after any number of turns |
| WorkedExample.ExampleWalk | bmp_filter.py:175-184 | the example stream is walked as two frames, at offsets 0 and 12, and the walk finishes |
| WorkedExample.ExampleOutput | bmp_filter.py:178-182 | with only `--peer-down`, the output is exactly the second message's 8 bytes |
| WorkedExample.ExampleTally | bmp_filter.py:178-182 | with only `--peer-down`, the kept counters are one Peer Down and the discarded counters one Route Monitoring |
| WorkedExample.TwoMessageRun | bmp_filter.py:174-184 | the whole run on the example stream: it finishes, writes the second message only, and counts each message once |

## Left out

- Command-line parsing (`parse_args`, bmp_filter.py:72-144) is configuration only. Its result enters the model as the seven include flags `IncludeFlags`.
- `Statistics.print` (bmp_filter.py:52-69) only formats output, so it is not modelled.
- Opening the files, the `mmap` and `out.write` (bmp_filter.py:171-173, 180) are I/O. The input is a byte sequence and the output file is an accumulated byte sequence. Of the errors these can raise, only the refusal of an empty file by `mmap` is modelled.
- The loop as written iterates a bounded number of turns `n`. Its non-termination on length zero is stated as "still at the same cursor after any `n`", not as an infinite run.
- BmpFilter.FilterStream: it stops with a `ZeroLength` error on a declared length of zero, where the source loops forever. The as-written behaviour is modelled separately in `LoopAsWritten`.
- Stats.Statistics: the two dictionaries keyed 0..6 are sequences of seven counters indexed by type code. The loop never reaches a missing key, because the filter-map lookup raises first.
- Message payloads are never inspected by the source and are not modelled beyond their bytes.

## Findings

| source | as written | input that shows it | evidently intended | confidence | as-written member | corrected member |
|---|---|---|---|---|---|---|
| bmp_filter.py:175-184 | `head += msg_length` with a declared length of 0 leaves `head` unchanged. `head < len(inp_map)` stays true, so the loop never ends. | the six bytes 03 00 00 00 00 00, under any include flags | a length too small to advance is reported as malformed, and the loop stops | not executed | LoopAsWritten.ZeroLengthExample | BmpFilter.FilterStream |
