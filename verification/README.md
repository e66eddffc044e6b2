# Raeen core: verified models

Dafny models of seven pieces of Raeen, a PlayStation 5 compatibility layer, with proofs of what they are for:

- **LZF codec** (`LzfTokens`, `LzfEncoder`, `LzfCompressor`, `LzfDecompressor`, `LzfGreedy`, `Lzf`, with bitwise
  operations in `Bits`). The compressor and the decompressor run over arrays with the source's loops. Between them
  stands the token stream (literal runs and back-references), with a meaning (`Eval`) and a wire format. The compressor
  is proved to write exactly the greedy token stream of its input, the decompressor to evaluate any buffer, malformed
  ones included. `LzfGreedy` says what greedy means without the hash table, and how much that saves.
- **Two calendars** (`DateTime`, `DateArithmetic`, `SysTimer`, with Rust's truncating division in `RustInt`). Julian
  Day arithmetic and era arithmetic, each a bijection between integers and valid dates, and in agreement.
- **Resampler and rings** (`Resampler`, `AudioRings`, `AudioMeaning`). Carried state makes cutting a stream into
  buffers invisible; the rings hold whole frames in order. `AudioMeaning` gives both in numbers: a ramp at another rate,
  the mix.
- **Slab list** (`LinkList`). A class over slots, a free list and links, refining a sequence of handles and values.
- **JSON reader** (`JsonReader`, `JsonText`, `JsonGrammar`, `JsonCursor`). The recursive-descent reader as methods on a
  node, against a grammar of texts with all their spellings, against the wider grammar of exactly what it accepts, and
  against a scan for quotes on any text at all.
- **Byte strings and hash** (`String8`, `Hash`).
- **Soak monitor** (`LineAssembler`, `SoakTracker`, `SoakVerdict`, `ProcessTree`).

Code that works in place is a class or a method over an array with the source's loops, each proved equal to a
function or relation whose own properties are the lemmas. Panics and process exits are explicit results: `None`,
`Panicked` or `Crash`.

Findings, each with its exact condition:

- `lzf::compress` is documented to need a buffer of `calc_compressed_size` bytes. That is enough if and only if the
  number of literals after the last match is not a multiple of 32, which is when the dry run ends with waiting
  literals; one byte more is always enough (`Lzf.DryRunSizeIsNotAlwaysEnough`, `LzfCompressor.CalcCompressedSize`).
  `compress_lzf` doubles the buffer.
- `ymd_to_jd` stays within 32 bits if and only if the date lies between 14 May -5884291 and 15 December 5874689
  (`DateArithmetic.YmdFitsRange`, and so `DateArithmetic.Date.Set`), `jd_to_ymd` if and only if the Julian Day lies
  between -536866432 and 536838867 (`DateArithmetic.JdFitsRange`); both do, and a date comes back, exactly between
  13 July -1474604 and 18 October 1465102 (`DateArithmetic.SetGetRange`).
- A JSON document that is cut off makes the reader slice past the end and panic if and only if the cut is right after
  the backslash of an escape, in a key or a value at any depth (`JsonCursor.CutOffDocument`). On any other text a
  panic is possible only there, and `JsonCursor.CrashIff` says exactly when.
- What the JSON reader accepts beyond JSON is a grammar of its own: values left out, keys of any kind (an array as a key
  leaves its items in the list of the member's value), and a string without an end (`JsonGrammar.ReaderIs`).
- A JSON value that is not there is accepted: as null in an array or a document, but as an empty string after a key
  (`JsonText.MissingIsNull`, `JsonText.MissingMemberValue`).
- A submission to the guest ring lands on its own channels if and only if the ring has even length, or, when it
  overflows, the submission has (`AudioRings.LandsIff`); the whole ring stays in place along a run exactly if every
  submission keeps it so on the length it finds (`AudioRings.InPlaceIff`). Whole frames always do.
- A valid time is converted to FILETIME without overflow if and only if it is not before 1601 and not after
  05:36:10.955 on 28 May 60056 (`SysTimer.SystemRoundTrip`).
- Splitting what was joined gives the pieces back if and only if no separator begins in a piece, not even one that the
  next separator completes (`String8.SplitJoinIff`).

`dafny verify dfyconfig.toml` checks the project.

## Model

| member | source | states |
|---|---|---|
| LzfTokens.ParseWire | crates/kyty-core/src/compression.rs:573-641 | the bytes written for any list of tokens parse back to exactly that list |
| LzfTokens.WireParse | crates/kyty-core/src/compression.rs:573-641 | whatever parses is, but for at most one ignored last byte, the writing of what was parsed |
| LzfTokens.CopyBackRepeats | crates/kyty-core/src/compression.rs:618-636 | a back-reference, overlapping or not, appends bytes that each repeat the one a distance before |
| LzfTokens.EvalAppend | crates/kyty-core/src/compression.rs:583-640 | a stream of tokens can be evaluated in two parts |
| LzfTokens.EvalLength | crates/kyty-core/src/compression.rs:532-565 | a stream that means something produces the sum of its tokens' lengths |
| LzfTokens.ReferenceFields | crates/kyty-core/src/compression.rs:470-493 | the length and distance of a back-reference by the bits of its two or three bytes |
| LzfEncoder.CommonIsLongest | crates/kyty-core/src/compression.rs:446-458 | the measured agreement really agrees, and the next pair of bytes does not |
| LzfEncoder.Next | crates/kyty-core/src/compression.rs:424-499 | one turn of the encoder keeps its state valid and moves forward |
| LzfEncoder.NextMeaning | crates/kyty-core/src/compression.rs:424-499 | the tokens of one turn, literal or match, mean just the input bytes that the turn covers |
| LzfEncoder.CopyMatches | crates/kyty-core/src/compression.rs:441-461 | where the bytes at an earlier position agree, a reference to it reproduces the input |
| LzfEncoder.TokensMeaning | crates/kyty-core/src/compression.rs:413-525 | the token stream of any input means that input |
| LzfEncoder.TokensCost | crates/kyty-core/src/compression.rs:413-525 | the stream takes at most one byte more for every 32 input bytes begun: a match repays the control byte before it |
| LzfEncoder.PeakReached | crates/kyty-core/src/compression.rs:413-525 | at every turn the write cursor is within the final size, or that plus one if the stream ends closed |
| LzfEncoder.TokensEnd | crates/kyty-core/src/compression.rs:501-522 | no stream ends with a match, and it ends with a full run exactly if no literals wait at the end of the input |
| LzfEncoder.AdvanceLiteral | crates/kyty-core/src/compression.rs:435-445 | a literal turn by its effect on table, cursor and bytes leads from a reached state to a reached state |
| LzfEncoder.AdvanceMatch | crates/kyty-core/src/compression.rs:448-498 | a match turn closes the open run with its length and appends the reference, and stays on the stream |
| LzfEncoder.Finish | crates/kyty-core/src/compression.rs:502-524 | at the end of the input the last partial run completes the stream, and its peak is reached |
| LzfGreedy.SlotIff | crates/kyty-core/src/compression.rs:305-318 | two positions share a table entry exactly if twelve bits of their three bytes, each a sum of three, agree |
| LzfGreedy.TokensAreGreedy | crates/kyty-core/src/compression.rs:413-525 | on every input, told from the stream alone: a literal before the last 36 bytes means that the last position entered with the same twelve bits is none to refer to; a match refers to just that position, for as long as the bytes agree up to 258, or for 3 bytes near the end |
| LzfGreedy.MatchIff | crates/kyty-core/src/compression.rs:424-440 | so a turn is a match exactly if that position holds the same three bytes and is at most 8191 back |
| LzfGreedy.LiteralAgain | crates/kyty-core/src/compression.rs:424-440 | on every input two literals with the same three bytes are more than 8191 bytes apart, or a colliding position was entered between them |
| LzfGreedy.RepetitionPays | crates/kyty-core/src/compression.rs:413-525 | without collisions the stream takes two thirds of the input and at most four thirds of a byte more for each of the last 36 bytes and, in each 8192 bytes, for each group of three bytes that occurs |
| LzfGreedy.PeriodicPays | crates/kyty-core/src/compression.rs:413-525 | so an input with a period takes two thirds of itself and little more than the period |
| LzfGreedy.AbcPays | crates/kyty-core/src/compression.rs:413-525 | "abc" over and over has no collisions, and 300 bytes of it take at most 252 |
| LzfCompressor.CountEqual | crates/kyty-core/src/compression.rs:446-459 | the rounds of eight comparisons find exactly the longest agreement, up to the cap |
| LzfCompressor.ExtendMatch | crates/kyty-core/src/compression.rs:441-461 | the match length that both passes compute |
| LzfCompressor.TakeMatch | crates/kyty-core/src/compression.rs:441-498 | measuring a match and entering its last position moves along the token stream |
| LzfCompressor.CalcCompressedSize | crates/kyty-core/src/compression.rs:321-408 | the dry run returns exactly the length of the stream's writing, and ends with no waiting literals exactly if the trailing ones fill their runs |
| LzfCompressor.WriteLiteral | crates/kyty-core/src/compression.rs:435-445 | a literal is appended to the open run, and the 32nd closes it, or the buffer is too small |
| LzfCompressor.CloseRun | crates/kyty-core/src/compression.rs:463-468 | the control byte in the buffer is patched with the run's length, or dropped for an empty run |
| LzfCompressor.WriteReference | crates/kyty-core/src/compression.rs:470-493 | the two- or three-byte reference and the next control byte, for every length and distance |
| LzfCompressor.WriteMatch | crates/kyty-core/src/compression.rs:463-493 | a closed run and a reference stand in the buffer after a match turn |
| LzfCompressor.CompressTail | crates/kyty-core/src/compression.rs:501-524 | the rest is literals; success exactly if the peak fits, and then the buffer holds the whole stream |
| LzfCompressor.Compress | crates/kyty-core/src/compression.rs:413-525 | succeeds exactly if the stream's peak fits in the buffer, and then has written exactly the stream |
| LzfDecompressor.SizeIsExact | crates/kyty-core/src/compression.rs:532-565 | the sizing pass adds up what a well-formed buffer produces, and is positive for a malformed one |
| LzfDecompressor.SizeOfDecoded | crates/kyty-core/src/compression.rs:532-565 | so it is the decoded length |
| LzfDecompressor.ResumeToken | crates/kyty-core/src/compression.rs:583-638 | one token decodes to its effect followed by the rest, or the buffer is cut off or refers back too far |
| LzfDecompressor.RunsOffIff | crates/kyty-core/src/compression.rs:590-617 | the pass runs off the input exactly if the buffer is cut off, its whole tokens mean something that fits, and so do the literals that are cut |
| LzfDecompressor.ReturnedToken | crates/kyty-core/src/compression.rs:583-638 | one token settles the return value, or passes it on to what follows |
| LzfDecompressor.CopyBackStep | crates/kyty-core/src/compression.rs:630-636 | copying one byte more is one more step of the back-reference |
| LzfDecompressor.CalcDecompressedSize | crates/kyty-core/src/compression.rs:532-565 | the sizing loop, on every input, without reading past its end |
| LzfDecompressor.ReadReference | crates/kyty-core/src/compression.rs:600-610 | reads exactly the reference that stands there, or finds it cut off exactly if it is |
| LzfDecompressor.CopyWithin | crates/kyty-core/src/compression.rs:618-636 | copying front to back within the output performs the back-reference |
| LzfDecompressor.Decompress | crates/kyty-core/src/compression.rs:573-641 | on every input and buffer: the decoded bytes if there are any and they fit, else a panic exactly if the input is run off, else 0 |
| Lzf.CompressLzf | crates/kyty-core/src/compression.rs:246-256 | never panics, and returns the writing of the input's token stream |
| Lzf.DecompressLzf | crates/kyty-core/src/compression.rs:266-276 | returns what the buffer decodes to, and exits or panics exactly if it decodes to nothing |
| Lzf.RoundTrip | crates/kyty-core/src/compression.rs:246-276 | for every input, what it compresses to decodes to it |
| Lzf.CompressThenDecompress | crates/kyty-core/src/compression.rs:246-276 | the same through the two entry points: no exit fires |
| Lzf.SizeOfCompressed | crates/kyty-core/src/compression.rs:271-274 | the sizing pass over the compressed bytes returns the input's length |
| Lzf.Expansion | crates/kyty-core/src/compression.rs:246-256 | output is at most n + ceil(n/32) bytes |
| Lzf.ShortInput | crates/kyty-core/src/compression.rs:415-416 | up to 36 bytes no match is looked for, and the expansion bound is attained |
| Lzf.DryRunSizeIsNotAlwaysEnough | crates/kyty-core/src/compression.rs:403-413 | a buffer of the dry run's size suffices if and only if the literals after the last match are no multiple of 32; one spare byte always suffices; 32 bytes of input need it |
| RustInt.Quotient | crates/kyty-core/src/date_time.rs:153-163 | quotient and remainder are determined by their defining equation |
| RustInt.TruncIs | crates/kyty-core/src/date_time.rs:153-163 | the truncating quotient and remainder split the dividend, and the remainder is smaller than the divisor and has the dividend's sign |
| DateTime.FloorDivIsFloor | crates/kyty-core/src/date_time.rs:153-163 | the hand-written division rounds down, for divisors of either sign |
| DateTime.ToJd | crates/kyty-core/src/date_time.rs:167-182 | the Julian Day is the day count of the March-based year plus the day in it |
| DateTime.FromJd | crates/kyty-core/src/date_time.rs:185-202 | every Julian Day splits into a March-based year, month and day within their ranges |
| DateTime.FromJdToJd | crates/kyty-core/src/date_time.rs:167-202 | every integer Julian Day, negative ones included, is a valid date whose Julian Day it is |
| DateTime.ToJdFromJd | crates/kyty-core/src/date_time.rs:167-202 | every valid date, BC years without a year 0 included, comes back from its Julian Day |
| DateTime.LeapAgrees | crates/kyty-core/src/date_time.rs:472-475 | the leap rule with truncating remainders on historical years is the Gregorian one |
| DateTime.JdKeepsOrder | crates/kyty-core/src/date_time.rs:167-182 | Julian Days order valid dates exactly as year, month and day do |
| DateTime.MarchRange | crates/kyty-core/src/date_time.rs:446-460 | a date is valid only within a real month and a real year length |
| DateArithmetic.NextDayAddsOne | crates/kyty-core/src/date_time.rs:167-182 | the calendar's next day (month end, leap February, year end, year -1 to 1) is valid and is one Julian Day later |
| DateArithmetic.NextJd | crates/kyty-core/src/date_time.rs:185-202 | one Julian Day later is the calendar's next day |
| DateArithmetic.JdCountsDays | crates/kyty-core/src/date_time.rs:478-502 | any number of Julian Days later is as many calendar days later |
| DateArithmetic.DayOfWeekCycles | crates/kyty-core/src/date_time.rs:381-390 | the weekday steps through 1..7 cyclically, across zero too |
| DateArithmetic.UnixEpoch | crates/kyty-core/src/date_time.rs:381-390 | the anchor of both counts: 1970-01-01 is Julian Day 2440588 and a Thursday |
| DateArithmetic.DayOfYearIs | crates/kyty-core/src/date_time.rs:393-399 | the day of the year is the days of the months before plus the day, and runs from 1 to the year's length |
| DateArithmetic.YmdFitsRange | crates/kyty-core/src/date_time.rs:167-182 | no step of the conversion leaves 32 bits if and only if the date is in the stated range |
| DateArithmetic.PartialSumOrder | crates/kyty-core/src/date_time.rs:179 | the step farthest from 0 orders dates as they are written |
| DateArithmetic.JdFitsRange | crates/kyty-core/src/date_time.rs:185-202 | no step of the way back leaves 32 bits if and only if the Julian Day is in the stated range |
| DateArithmetic.SetGetRange | crates/kyty-core/src/date_time.rs:292-315 | both directions stay within 32 bits if and only if the date is in the stated range, and are inverse |
| DateArithmetic.SetGetYears | crates/kyty-core/src/date_time.rs:292-315 | so a million years either way are exact; the year 2000000 fails on the way back |
| DateArithmetic.Date.Set | crates/kyty-core/src/date_time.rs:292-298 | a date that exists is stored, and read back in the stated range; any other makes the object invalid; fails exactly outside the range of dates that fit |
| DateArithmetic.Date.AddDays | crates/kyty-core/src/date_time.rs:492-496 | adding moves by as many calendar days, either way; fails exactly if the sum leaves 32 bits |
| DateArithmetic.Date.SubDays | crates/kyty-core/src/date_time.rs:498-502 | subtracting moves by as many calendar days, either way; fails exactly if the difference leaves 32 bits |
| SysTimer.CalendarsAgree | crates/kyty-core/src/sys_timer.rs:100-107 | the era arithmetic counts the same days as the Julian Days less 2440588, for every valid date |
| SysTimer.YearOfEra | crates/kyty-core/src/sys_timer.rs:113-114 | the three corrections recover the year of the era from any day of it |
| SysTimer.CalendarsAgreeBack | crates/kyty-core/src/sys_timer.rs:110-121 | both calendars read the same date off every day |
| SysTimer.CivilInverse | crates/kyty-core/src/sys_timer.rs:100-121 | days to date and back is the identity on all integers, through a valid date |
| SysTimer.DaysInverse | crates/kyty-core/src/sys_timer.rs:100-121 | date to days and back is the identity on all valid dates |
| SysTimer.FileRoundTrip | crates/kyty-core/src/sys_timer.rs:125-198 | every u64 tick count gives a valid time (the leap-second clamp never acts) and comes back less its part below a millisecond, without overflow |
| SysTimer.Epochs | crates/kyty-core/src/sys_timer.rs:125-198 | tick 0 is the start of 1601, tick 116444736000000000 that of 1970 |
| SysTimer.SystemRoundTrip | crates/kyty-core/src/sys_timer.rs:125-198 | a valid time is converted if and only if it lies between 1601-01-01 and the last 64-bit tick, by its fields, and then comes back the same |
| Resampler.ChunkIndependence | crates/raeen-audio/src/output.rs:312-357 | two calls with carried state give the frames and the state of one call on the joined buffer |
| Resampler.StreamIndependence | crates/raeen-audio/src/output.rs:312-357 | so does any number of buffers, empty ones included |
| Resampler.PositionBound | crates/raeen-audio/src/output.rs:342-355 | the carried position is never below -1, so one frame of history is enough |
| Resampler.OutputAt | crates/raeen-audio/src/output.rs:343-351 | the k-th output is the interpolation at the start plus k times the ratio |
| Resampler.OutputBetween | crates/raeen-audio/src/output.rs:330-349 | the index clamp never acts, and an output lies between its two neighbouring input frames |
| Resampler.EveryOutputBetween | crates/raeen-audio/src/output.rs:316-357 | so does every output of a call on any state a call leaves, which leaves such a state again |
| Resampler.FramesAppend | crates/raeen-audio/src/output.rs:317-337 | left and right stay paired when even buffers are joined |
| Resampler.ReadOut | crates/raeen-audio/src/output.rs:343-351 | the loop interleaves exactly the specified frames and ends at the specified position |
| Resampler.Resampler.ResampleStereo | crates/raeen-audio/src/output.rs:316-357 | output and carried state are those of the specification, on interleaved samples |
| AudioMeaning.RampResampled | crates/raeen-audio/src/output.rs:316-357 | from a fresh state the ramp with frames (i, -i) comes out as the times k * src / dst on the left and their negatives on the right, for exactly the k whose time is before the last input frame |
| AudioMeaning.RateChangeRestarts | crates/raeen-audio/src/output.rs:316-328 | a change of source rate forgets position and history |
| AudioMeaning.FramesOfInterleave | crates/raeen-audio/src/output.rs:316-357 | taking frames inverts interleaving |
| AudioMeaning.GivenSamples | crates/raeen-audio/src/output.rs:285-300 | what a submission adds, for a ramp at any two rates: the samples as they are if one rate is unknown or both are equal, else the ramp at the new rate |
| AudioRings.AudioOutput.Submit | crates/raeen-audio/src/output.rs:255-310 | the ring keeps the newest samples, resampled with the carried state; nothing happens while off |
| AudioRings.AudioOutput.PlayUi | crates/raeen-audio/src/output.rs:225-248 | a clip is resampled on its own and cut to the ring's budget |
| AudioRings.AudioOutput.PopFrame | crates/raeen-audio/src/output.rs:202-209 | one frame is the clamped mix of the front frames of both rings, left with left and right with right |
| AudioRings.AudioOutput.Fill | crates/raeen-audio/src/output.rs:193-218 | the device buffer and both rings after the callback, for any number of channels and a short last frame |
| AudioRings.BufferAt | crates/raeen-audio/src/output.rs:201-217 | position i of a device buffer is channel i mod c of frame i div c |
| AudioRings.AfterBufferIs | crates/raeen-audio/src/output.rs:201-209 | a buffer takes one stereo frame per device frame, the short one included |
| AudioRings.RingsHoldSuffixes | crates/raeen-audio/src/output.rs:193-310 | over any run the guest ring is at most 24000 samples, the menu ring at most 192000, and each is a suffix of its stream |
| AudioRings.RingsStayEven | crates/raeen-audio/src/output.rs:193-310 | over any run of whole frames both rings hold whole frames |
| AudioRings.ChannelsNeverSwap | crates/raeen-audio/src/output.rs:193-310 | over any such run every ring frame is a whole frame of its stream |
| AudioRings.DeviceHearsWholeFrames | crates/raeen-audio/src/output.rs:193-310 | after any run of whole frames each device frame mixes left with left and right with right of one whole frame of each stream |
| AudioMeaning.DeviceValue | crates/raeen-audio/src/output.rs:193-218 | a sample on channel 0 or 1 is guest plus menu sample, times the gain, where that lies in [-1, 1], and else the nearer end; 0 on the others |
| AudioMeaning.DeviceHearsStreams | crates/raeen-audio/src/output.rs:193-310 | the same of the two streams after any run of whole frames, from where a whole frame of each starts |
| AudioMeaning.DisabledIsSilent | crates/raeen-audio/src/output.rs:89-95 | a disabled output fills every buffer with silence, an enabled one plays at its volume |
| AudioMeaning.RingLengths | crates/raeen-audio/src/output.rs:225-310 | what is kept and taken: the newest 24000 guest samples, menu samples up to 192000, two samples for a frame |
| AudioRings.LandsIff | crates/raeen-audio/src/output.rs:302-309 | a submission of any length lands on its own channels exactly under the stated parity of the ring's or its own length |
| AudioRings.PushInPlace | crates/raeen-audio/src/output.rs:302-309 | a ring in place stays so exactly if the submission keeps it, by the two lengths |
| AudioRings.InPlaceIff | crates/raeen-audio/src/output.rs:193-310 | a ring is in place all along a run exactly if every submission of it keeps it so |
| AudioRings.WholeFramesKeep | crates/raeen-audio/src/output.rs:193-310 | a run of whole frames keeps the ring in place all along |
| AudioRings.OneSampleMisplaces | crates/raeen-audio/src/output.rs:302-309 | one sample and then a whole frame are a run where that fails |
| LinkList.List.constructor | crates/kyty-core/src/link_list.rs:61-69 | a new list is well formed and empty |
| LinkList.List.Clear | crates/kyty-core/src/link_list.rs:78-84 | clearing leaves a well-formed empty list |
| LinkList.List.Add | crates/kyty-core/src/link_list.rs:89-112 | appends under the key freed last, or under a new slot's if every slot holds an element, and keeps the list well formed |
| LinkList.List.RemoveAt | crates/kyty-core/src/link_list.rs:176-200 | removes just the handle's element, puts its key on the free list, returns its successor, and keeps the list well formed |
| LinkList.List.Next | crates/kyty-core/src/link_list.rs:134-139 | the handle one position on, and none after a freed slot |
| LinkList.List.Prev | crates/kyty-core/src/link_list.rs:143-148 | the handle one position back, and none before a freed slot |
| LinkList.List.At | crates/kyty-core/src/link_list.rs:152-155 | the value that the sequence has at the handle's position |
| LinkList.List.FindBy | crates/kyty-core/src/link_list.rs:164-173 | the first element that satisfies the predicate, or none if none does |
| LinkList.List.Remove | crates/kyty-core/src/link_list.rs:226-229 | removes the first such element only |
| LinkList.List.Clone | crates/kyty-core/src/link_list.rs:234-240 | a fresh well-formed list with the same values in order |
| LinkList.ListSet.AddUnique | crates/kyty-core/src/link_list.rs:292-299 | the handle of the value: the old element's if there is one and nothing changes, else a new last one |
| LinkList.AppendKeeps | crates/kyty-core/src/link_list.rs:103-109 | linking a taken slot at the tail keeps slots, free list and links well formed |
| LinkList.RemoveKeeps | crates/kyty-core/src/link_list.rs:181-197 | unlinking and freeing a slot keeps them well formed |
| LinkList.WalkForward | crates/kyty-core/src/link_list.rs:134-139 | walking from the head visits exactly the live slots in order |
| LinkList.WalkBackward | crates/kyty-core/src/link_list.rs:143-148 | walking from the tail visits them in the opposite order |
| LinkList.HandlesAreStable | crates/kyty-core/src/link_list.rs:89-200 | over any run, a handle that is not removed denotes the same element in the same relative order, slots being reused around it |
| LinkList.HandleDenotes | crates/kyty-core/src/link_list.rs:89-200 | after any run a handle denotes exactly what was last added under its key and not removed since, so a removed one denotes a later element if that takes its slot |
| LinkList.SetsHaveNoDuplicates | crates/kyty-core/src/link_list.rs:289-300 | a set driven by `add_unique` and removals never holds a value twice |
| JsonReader.SkipBlanks | crates/kyty-core/src/json_reader.rs:113-119 | the loop drops exactly the leading white space |
| JsonReader.Node.ParseValue | crates/kyty-core/src/json_reader.rs:309-341 | node and cursor are those of the grammar function, for every text and every node it is called on |
| JsonReader.Node.ParseArray | crates/kyty-core/src/json_reader.rs:344-374 | the same for arrays: children in order, errors where the source reports them |
| JsonReader.Node.ParseObject | crates/kyty-core/src/json_reader.rs:377-425 | the same for objects, key and value being read into one child |
| JsonReader.Node.ParseNumber | crates/kyty-core/src/json_reader.rs:428-444 | the same for numbers, whose text is kept |
| JsonReader.Node.ParseString | crates/kyty-core/src/json_reader.rs:447-489 | the same for strings: escapes, the refused `\u`, the missing end, and the slice past the end |
| JsonReader.Create | crates/kyty-core/src/json_reader.rs:149-154 | the first value after white space, an error or a panic |
| JsonReader.NoMarksNoChange | crates/kyty-core/src/string.rs:315-320 | building a string changes it exactly if it holds a byte order mark |
| JsonReader.MarksAreDropped | crates/kyty-core/src/string.rs:315-320 | character by character each is kept, except a byte order mark |
| JsonText.ReadBack | crates/kyty-core/src/json_reader.rs:309-489 | reading any spelling of any value gives its meaning and exactly the text after it |
| JsonText.ItemsBack | crates/kyty-core/src/json_reader.rs:344-374 | the items of an array come back in order, with any white space between them |
| JsonText.MembersBack | crates/kyty-core/src/json_reader.rs:377-425 | the members of an object come back in order, each with its name |
| JsonText.KeyBack | crates/kyty-core/src/json_reader.rs:390-402 | a key in any spelling becomes the name of the node its value is read into |
| JsonText.PiecesBack | crates/kyty-core/src/json_reader.rs:447-489 | any mix of raw and escaped characters comes back as the characters, by a table of escapes that is not the reader's |
| JsonText.EscapeIs | crates/kyty-core/src/json_reader.rs:464-480 | the reader's escapes by number: b, t, n, f, r are 8, 9, 10, 12, 13, all others themselves |
| JsonText.WhiteIs | crates/kyty-core/src/json_reader.rs:113-119 | the reader skips exactly the white space characters, listed by number |
| JsonText.InNumberIs | crates/kyty-core/src/json_reader.rs:121-132 | the characters of a number, and those it may begin with, are those listed |
| JsonText.Reads | crates/kyty-core/src/json_reader.rs:149-154 | a document comes back as its meaning |
| JsonText.Unambiguous | crates/kyty-core/src/json_reader.rs:309-489 | no two spellings with different meanings are the beginning of one text |
| JsonText.StringsRead | crates/kyty-core/src/json_reader.rs:447-489 | every string comes back from its quoted form, but for byte order marks |
| JsonText.StringPanics | crates/kyty-core/src/json_reader.rs:463-488 | the reader of a string panics if and only if the text is pieces of a string and then a lone backslash |
| JsonCursor.OneBackslashCrashes | crates/kyty-core/src/json_reader.rs:463-488 | a quote and a backslash make the reader panic; behind a character that begins no value they do not |
| JsonCursor.CrashEndsEscaping | crates/kyty-core/src/json_reader.rs:149-154 | on any text a panic means that it ends in an escape, and errors are reported at an end of the text |
| JsonCursor.CrashIff | crates/kyty-core/src/json_reader.rs:463-488 | any text makes the reader panic exactly if it ends in an escape and, with a `u` put after it, fails at that `u` |
| JsonCursor.ShortValue | crates/kyty-core/src/json_reader.rs:309-489 | on a text cut off in an escape the reader does what it does on any longer one, or panics |
| JsonCursor.CutOffText | crates/kyty-core/src/json_reader.rs:149-154 | a text that is read to its end, and cut off, panics exactly if the cut is in an escape |
| JsonCursor.CutOffDocument | crates/kyty-core/src/json_reader.rs:149-154 | so does every JSON document in any spelling, cut off anywhere, the string being at any depth |
| JsonCursor.ValueSound | crates/kyty-core/src/json_reader.rs:309-489 | the cursor only moves forward and in step with a scan for quotes: what is left or reported is an end of the text |
| JsonText.Unterminated | crates/kyty-core/src/json_reader.rs:482-488 | a string without its closing quote is accepted as if it had one |
| JsonText.MissingValue | crates/kyty-core/src/json_reader.rs:334-335 | node and cursor are left alone exactly where no value begins |
| JsonText.MissingIsNull | crates/kyty-core/src/json_reader.rs:344-374 | so a document or an array item that is not there is null |
| JsonText.MissingMemberValue | crates/kyty-core/src/json_reader.rs:390-402 | but a member's value that is not there leaves an empty string under the key's name |
| JsonText.WordsOnly | crates/kyty-core/src/json_reader.rs:309-333 | a value that begins with n, f or t is one of the three words, or an error there |
| JsonGrammar.FormReads | crates/kyty-core/src/json_reader.rs:309-489 | every text of the wider grammar (values left out, keys of any kind, strings without an end) is read to what it makes of the node |
| JsonGrammar.ValueForm | crates/kyty-core/src/json_reader.rs:309-489 | whatever is read successfully is such a text |
| JsonGrammar.ReaderIs | crates/kyty-core/src/json_reader.rs:309-489 | so the reader succeeds, with a given node and rest, if and only if the text is a form of that grammar that makes that node in front of that rest |
| JsonGrammar.CreationIs | crates/kyty-core/src/json_reader.rs:149-154 | a tree is created if and only if the text begins, after blanks, with a form, and it is the tree of that form |
| String8.FindIsFirst | crates/kyty-core/src/string8.rs:511-532 | the index found is the first occurrence, and none is found exactly if there is none |
| String8.FindIndex | crates/kyty-core/src/string8.rs:511-532 | the search loop finds that index |
| String8.Split | crates/kyty-core/src/string8.rs:732-753 | the list is all pieces, or all that are not empty |
| String8.Concat | crates/kyty-core/src/string8.rs:995-1004 | the elements with the separator between them |
| String8.ReplaceStr | crates/kyty-core/src/string8.rs:399-421 | replacing is splitting on the old string and joining with the new one |
| String8.JoinSplit | crates/kyty-core/src/string8.rs:732-753 | joining the pieces with the separator gives the string back, for every separator, the empty one included |
| String8.PiecesAreClean | crates/kyty-core/src/string8.rs:732-753 | no piece contains a non-empty separator |
| String8.SplitJoinIff | crates/kyty-core/src/string8.rs:995-1004 | for every non-empty separator, joining and splitting gives the pieces back if and only if no separator begins in one, not even completed by the next |
| String8.EmptySplitJoinIff | crates/kyty-core/src/string8.rs:995-1004 | for the empty separator, if and only if the pieces are single bytes or the one empty piece |
| String8.SplitJoin | crates/kyty-core/src/string8.rs:995-1004 | a one-byte separator only has to be absent from the pieces |
| String8.OverlapIsNotSeparable | crates/kyty-core/src/string8.rs:511-532 | for a longer separator, not containing it is not enough |
| String8.ReplaceBySelf | crates/kyty-core/src/string8.rs:399-421 | replacing a string by itself changes nothing |
| Hash.Hash | crates/kyty-core/src/hash.rs:24-47 | the loop over chunks of four and the remainder is a byte-by-byte fold, then the final mix |
| Hash.StepBits | crates/kyty-core/src/hash.rs:30-32 | each bit of a step is that of 1025 times the sum of hash and byte, plus the one 6 places up |
| Hash.MixBits | crates/kyty-core/src/hash.rs:42-44 | the final mix is 32769 times a word whose bits are those of 9 times the hash, plus the ones 11 places up |
| Hash.ShortKeys | crates/kyty-core/src/hash.rs:24-47 | the empty key hashes to 0, the key of one byte 1 to 307143837 |
| Hash.StepInjective | crates/kyty-core/src/hash.rs:30-32 | for one byte the step is a bijection of the running hash, for one running hash it tells bytes apart |
| Hash.MixInjective | crates/kyty-core/src/hash.rs:42-44 | the final mix is injective on 32-bit words |
| Hash.FoldInjective | crates/kyty-core/src/hash.rs:43 | xor with one's own right shift is injective |
| Hash.OneByteChangesHash | crates/kyty-core/src/hash.rs:24-47 | messages of one length that differ in exactly one byte have different hashes |
| LineAssembler.LineAssembler.Feed | xtask/src/soak.rs:90-105 | splitting at the last newline of the whole buffer gives the lines of a byte-by-byte reading, and its open line |
| LineAssembler.LineAssembler.Flush | xtask/src/soak.rs:109-116 | hands back the open line once, unless it is empty or blank |
| LineAssembler.CutAnywhere | xtask/src/soak.rs:82-105 | lines and open line do not depend on where the bytes are cut |
| LineAssembler.FedIsLines | xtask/src/soak.rs:82-105 | any sequence of chunks hands on the lines of all the bytes |
| LineAssembler.LinesBack | xtask/src/soak.rs:94-104 | lines written with either line end come back one for one, but for those without text |
| SoakTracker.SoakTracker.ObserveLine | xtask/src/soak.rs:183-211 | the fields stay exact summaries of the history of lines |
| SoakTracker.SoakTracker.RecordAdvance | xtask/src/soak.rs:213-223 | the closed stall stays the largest gap between advances so far |
| SoakTracker.SoakTracker.Check | xtask/src/soak.rs:228-243 | the verdict on the history at a time: deadlock before stall before boot budget |
| SoakTracker.SoakTracker.WorstStall | xtask/src/soak.rs:247-252 | the largest gap between advances, the open one included |
| SoakTracker.MaxGapIs | xtask/src/soak.rs:213-252 | that is an upper bound of all neighbouring gaps, and attained |
| SoakVerdict.HighWaterIs | xtask/src/soak.rs:183-194 | the high-water mark is at least every count of the history and one of them, or 0 if there is none |
| SoakVerdict.AdvancesAre | xtask/src/soak.rs:190-210 | the last advance is at the last line that shows flips: a submitted flip, or a count above all before |
| SoakVerdict.VerdictIff | xtask/src/soak.rs:228-243 | a verdict is a deadlock exactly if some line was marked, and that nothing was ever shown exactly if none was marked, none showed flips, and the boot limit has been reached |
| SoakVerdict.StalledIff | xtask/src/soak.rs:228-243 | it is a stall exactly if none was marked, the last line with flips came at the named time, and the named gap since is above the limit |
| SoakVerdict.DeadlockIs | xtask/src/soak.rs:228-231 | the first marked line is the warning named |
| SoakTracker.Run | xtask/src/soak.rs:815-867 | the polling loop and the final drain, against their specification |
| SoakVerdict.WatchEnds | xtask/src/soak.rs:815-867 | every run of the loop ends at the deadline after quiet turns, or with what one turn found after quiet ones |
| SoakVerdict.RunFails | xtask/src/soak.rs:815-867 | a run that fails names its turn or the last check, and there a child had exited, or the limits had passed with nothing marked and, for the boot limit, nothing shown |
| SoakTracker.NoHiddenStall | xtask/src/soak.rs:815-867 | a run without a verdict, polled at most a period apart, has no stall above the limit plus the period, and has presented if it outlasts the boot limit |
| SoakTracker.DeadlockSticks | xtask/src/soak.rs:228-231 | a deadlock line once seen decides every later check with the same warning |
| SoakTracker.WarningIsFirst | xtask/src/soak.rs:185-187 | that warning is the first marked line of the history |
| ProcessTree.ProcessTree | xtask/src/soak.rs:318-341 | exactly the pids whose parent chain reaches the root, for every map, cyclic or dangling, and every key order |
| ProcessTree.Chain | xtask/src/soak.rs:321-338 | one climb ends, and adds only pids whose chain reaches the root |
| ProcessTree.NeverLeads | xtask/src/soak.rs:327-333 | a chain that repeats or ends never reaches a root outside it |

## Left out

- The zstd, LZMA and zlib wrappers and the `_str` variants: external crates.
- 32-bit counters and lengths in the LZF codec, `String8` and the list's size: unbounded here, so inputs above 4 GiB are not modelled.
- Floating-point rounding in the resampler and the mixer: samples, gain and positions are reals, and `frac` is not narrowed.
- AudioRings.AudioOutput.Submit: does not model the logging of the first submissions, the atomics and locks, or a missing menu ring beside a present guest ring.
- Device setup, volume and enable switches: fields that the callers set.
- Resampler.Resampler.ResampleStereo: asks for rates above zero, as both callers do.
- DateArithmetic.Date.Set: reports a step that leaves 32 bits as failure; a checked build panics there, an unchecked one wraps. Likewise the sums of the operators, which do not look whether the date is valid.
- Month and day names, date formats, wall clocks, time of day objects: no arithmetic of their own.
- LinkList.List.Next: asks for a handle that the slab has had; a number past its end panics in the source.
- LinkList.List.RemoveAt: asks for a live handle or the invalid one. A handle of a freed slot panics in the source; once the slot is reused it is the live handle of the new element, which is then removed.
- LinkList.List.At: asks for a live handle; an invalid one or one of a freed slot ends the program.
- LinkList.List.FindBy: predicates are pure functions.
- LinkList.List.Remove: takes the comparison as a predicate, and names the position in a ghost result.
- The list's iterator object and mutable access to a value: the walk of `FindBy` and `Clone` is the same.
- JsonReader.Node.ParseNumber: keeps the text only; the conversion to double and integer, and the integer that `true` sets, are not part of this model.
- JsonReader.Create: keeps no global error text; the position of the error is the result. Lookup and conversion methods of a finished tree are not part of this model.
- JsonReader.Node.ParseValue: says nothing of the node after an error or a panic, since `create` drops it; the depth of the call stack is not bounded.
- LineAssembler.LineAssembler.Flush: whether the rest is blank as text is a parameter, and lines are bytes: decoding them is not part of this model.
- SoakTracker.SoakTracker.ObserveLine: takes the line with its marks already read; stripping colours, finding metrics, frame times and the fields of a warning are text scanning.
- SoakTracker.Run: polls are given as data; starting and stopping the game, resource samples and the tail of the log are left out.
- The report, resource statistics and other development commands: counting and printing.
