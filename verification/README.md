# Audio binding models

Verified Dafny models of the parts of the audio binding that decide something hard, written beside the C, C++ and
JavaScript they model. `dafny verify dfyconfig.toml` checks everything.

| module | what it models |
|---|---|
| `Options` | a value that may be missing |
| `WrapJsonBase` | JSON trees, error codes, and the cursor that skips blanks, `:` and `,` |
| `WrapJsonPack` | `wrap_json_vpack`: a recursive meaning of formats, and the stack machine that computes it |
| `WrapJsonTexts` | strings of several fragments: what every list of them packs to, as a value and as a key |
| `WrapJsonPackGrammar` | the packing grammar as a syntax tree, its spelling and its denotation; the accepted language |
| `WrapJsonUnpack` | `vunpack`: a recursive matcher that says what is answered, where a run fails, and which targets are written |
| `WrapJsonUnpackMachine` | the stack of `vunpack`, its well-formedness, the accounting of the skip counter, and what each turn leaves to do |
| `WrapJsonVunpack` | `vunpack` itself: a loop over an array of frames that writes the caller's targets in place |
| `WrapJsonUnpackGrammar` | the unpacking grammar and what it means for a tree to fit it; the accepted trees |
| `WrapJsonUnpackLaws` | absent values, strictness, and checking in lockstep with storing |
| `WrapJsonPackFailures` | which error packing answers: the first thing that goes wrong |
| `WrapJsonMisfits` | which error unpacking answers: the first misfit; what each specifier accepts and stores |
| `WrapJsonSpacing` | blanks, commas and colons make no difference |
| `WrapJsonUnambiguous` | a format string has one reading in each grammar, and every unpacking format a spelling |
| `WrapJsonRoundTrip` | unpacking undoes packing |
| `WrapJsonRebuild` | packing undoes unpacking, with the exact exceptions |
| `WrapJsonReturnCode` | the integer that carries an error code and a position |
| `MostVolumeProtocol` | the MOST volume synchroniser as a protocol of atomic steps, for any number of values |
| `MostVolumeDevices` | its classes, each method proved to perform the protocol's step |
| `AlsaWords` | 32-bit words and their casts |
| `AlsaTlv` | the decoder of ALSA TLV metadata |
| `AlsaRequests` | the join of a request for reading or writing with the controls of a card |
| `AfbWebsock` | call ids and promises of the browser's websocket |
| `VolumeRamp` | the volume ramp shared by several live timers |
| `VolumeScaling` | percentages, raw control values and bus volumes |

How the interpreters are proved. The explicit stack of each interpreter is given a meaning in terms of a recursive
function: `Resume` says what remains to be computed from a machine state (finish the innermost container, hand it to
the frame below, and so on). The loop invariant is that `Resume` never changes, so the answer of the loop is the
recursive meaning, for every format, every argument list and every error, position included. The branches that report
an internal error are `assert false`. Every turn moves the cursor forward, so a run takes at most as many turns as the
format has characters. Branches of the switches are methods of their own that update the array of frames, so that each
can be proved alone. The recursive meaning is then compared with a syntax tree: `Spells` says that a format string is
a spelling of the tree, `Denote` and `Fits` say what the tree means, and the two theorems `PackAccepts` and
`UnpackAccepts` say that success is exactly "some tree is spelled and means this"; `PackJudges` and `UnpackJudges` say
which error is answered otherwise. Since a format has one reading, `PackByReading` and `UnpackByReading` say the same
of whichever tree is spelled, and the two round trips rest on them.

Arguments of the wrong type, and reads past a string buffer, are undefined behaviour in C. They are outcomes of the
models (`BadCall`, `Undefined`), not preconditions.

Where the code and wrap-json.md differ, the models follow the code:

- `*` also suppresses `n`, and it suppresses an empty array or object (wrap-json.c:242-245, 260-263, 273-276); the
  document mentions only missing strings and objects.
- `?` may stand before or after the length of a fragment, and every fragment of a concatenation may have one
  (wrap-json.c:147-158); `+` is also accepted after `%` and `?`.
- `!` compares a count of successful lookups with the size of the object (wrap-json.c:387-389, 526-527). The document
  promises that all items were accessed. `StrictnessNeedsDistinctKeys` says that the two agree for all objects exactly
  when the keys looked up are distinct, and `StrictGoesWrong` shows it wrong in both directions. The disabled test at
  wrap-json.c:920-936 asks for the promise in the case of repeated keys.

Other promises found to fail, with the exact condition under which they hold and an input that shows the failure: a
TLV container drops a last child without payload (`DecodingInvertsEncoding`, `LastChildDropped`); a ramp reaches its
target only if the step in its direction is positive (`TargetReachedIff`, `NoStepNoRamp`); the volume byte is right
only for percentages that are not negative (`VolumeByteIsVolume`, `NegativeVolume`); return codes tell every error for
exactly the formats below 2^27 characters, a longer one of blanks being the input that fails (`PackFormatsTell`,
`UnpackFormatsTell`, `BlanksAreRefused`); an unpacked tree is not always the one that its stored values pack to
(`UnpackThenPack`, `IntegerIsClamped`); an answer of the bus confirms a volume exactly when 256 divides its status
(`AnswerConfirms`); a request for writing is forgotten if it is a number after one other request (`RequestCount` in
`EveryRequestAnsweredOnce`, `SecondRequestForgotten`), and what the uninitialised request table held makes a
difference unless every request has a number (`StaleNumbersMatter`, `StaleNumberWins`); a call ends exactly if fewer
than 4096 calls are pending, and 4096 calls without a reply make that state (`SearchEnds`, `CallNeverEnds`); a
percentage sets the raw maximum at 100 exactly if the raw minimum is 0 (`LinearEnds`); decoding TLV is undefined
exactly when it meets a leaf whose size is no multiple of 4 or a dB range with entries (`UndefinedIffRuinous`,
`OddLeaf`).

## Model

| member | source | states |
|---|---|---|
| WrapJsonBase.SkipIsFirst | HAL-afb/HAL_MOST_UNICENS/wrap-json.c:97-102 | The cursor passes over blanks, `,` and `:` only, and over all of them |
| WrapJsonBase.SkipIgnored | HAL-afb/HAL_MOST_UNICENS/wrap-json.c:97-102 | The loop stops where the cursor must stop |
| WrapJsonBase.SkipsBlanks | HAL-afb/HAL_MOST_UNICENS/wrap-json.c:45-102 | The characters passed over are blank, tab, line feed, carriage return, comma and colon, and the cursor stops at any other |
| WrapJsonBase.CStringEnds | HAL-afb/HAL_MOST_UNICENS/wrap-json.c:152 | A C string is cut at its first NUL and nowhere else |
| WrapJsonSpacing.PackIgnoresBlanks | HAL-afb/HAL_MOST_UNICENS/wrap-json.c:97-325 | Two formats that are equal without those six characters pack alike: the same tree, or the same error where the same is left of both |
| WrapJsonSpacing.UnpackIgnoresBlanks | HAL-afb/HAL_MOST_UNICENS/wrap-json.c:97-102 | They unpack alike: the same writes, and success or the same error where the same is left of both |
| WrapJsonSpacing.BlankAnywhere | HAL-afb/HAL_MOST_UNICENS/wrap-json.c:97-102 | One of the six characters more, anywhere in a format, changes neither success nor the tree nor the writes |
| WrapJsonPack.Vpack | HAL-afb/HAL_MOST_UNICENS/wrap-json.c:104-325 | The loop with its stack of 32 frames answers what the recursive meaning of the format says, on every format and argument list: the tree built, or the error and its position; internal errors are unreachable and every turn advances the cursor |
| WrapJsonPack.PackText | HAL-afb/HAL_MOST_UNICENS/wrap-json.c:136-186 | The fragment loop yields the fragments concatenated in order, null if all are NULL and `?` or `*` allows it, and the errors for too many fragments and for a NULL string |
| WrapJsonPack.CopyFragments | HAL-afb/HAL_MOST_UNICENS/wrap-json.c:174-179 | Copying the fragments from the last to the first yields them in order |
| WrapJsonPack.ConcatJoins | HAL-afb/HAL_MOST_UNICENS/wrap-json.c:174-179 | Lists of fragments one after the other give their strings one after the other |
| WrapJsonTexts.PackStrings | HAL-afb/HAL_MOST_UNICENS/wrap-json.c:136-186 | `s` with a `+` for each further string packs up to eight strings, in the order of the arguments, into one |
| WrapJsonTexts.PackPieces | HAL-afb/HAL_MOST_UNICENS/wrap-json.c:136-186 | The same for any list of fragments with `%`, `#` and `?`: NULL ones contribute nothing, all NULL is null if one has a `?` and an error otherwise, nine are too long, and reading past a string is undefined |
| WrapJsonTexts.PackKey | HAL-afb/HAL_MOST_UNICENS/wrap-json.c:136-186 | The same for a key, where null is an error of its own |
| WrapJsonPack.ResumeOpens | HAL-afb/HAL_MOST_UNICENS/wrap-json.c:221-237 | Pushing a frame for `[` or `{` leaves what remains to be computed unchanged |
| WrapJsonPack.ResumeRefuses | HAL-afb/HAL_MOST_UNICENS/wrap-json.c:129-134 | In every well-formed state a character outside the accept set, or the end of the string, ends the whole run with that error at the cursor |
| WrapJsonPackGrammar.PackAccepts | HAL-afb/HAL_MOST_UNICENS/wrap-json.c:128-285 | Packing succeeds exactly on the words of the grammar that nest at most 31 containers, use at most 8 fragments a string and obey the null rules, and the result is the denotation of the syntax tree: `*` leaves out null items together with their keys, later members replace earlier ones |
| WrapJsonPackFailures.PackJudges | HAL-afb/HAL_MOST_UNICENS/wrap-json.c:128-285 | With a well-formed format, packing fails with the first of these, in the order of the format: more than 31 nested containers, more than 8 fragments, a NULL string, key or object that no `?` or `*` allows; arguments of the wrong type are undefined |
| WrapJsonPackFailures.ValueJudged | HAL-afb/HAL_MOST_UNICENS/wrap-json.c:128-249 | The same for each value inside a format |
| WrapJsonPackGrammar.ValueSound | HAL-afb/HAL_MOST_UNICENS/wrap-json.c:128-249 | Every value read is the spelling of a syntax tree within the limits, with that tree's denotation |
| WrapJsonPackGrammar.ValueComplete | HAL-afb/HAL_MOST_UNICENS/wrap-json.c:128-249 | Every spelling of a syntax tree within the limits that denotes a value is read as that value |
| WrapJsonVunpack.Interpret | HAL-afb/HAL_MOST_UNICENS/wrap-json.c:363-561 | The loop with its stack of 32 frames, its skip counter and its one-item look-ahead answers what the recursive matcher says and leaves the caller's memory as the matcher's writes would, on every tree, format and argument list, also when it fails; every turn advances the cursor and keeps the skip accounting |
| WrapJsonVunpack.Vunpack | HAL-afb/HAL_MOST_UNICENS/wrap-json.c:338-361 | The same for a format that may be NULL |
| WrapJsonVunpack.UnpackKey | HAL-afb/HAL_MOST_UNICENS/wrap-json.c:373-400 | The key branch counts, looks up or skips a key, and what remains to be computed does not change |
| WrapJsonVunpack.AfterValue | HAL-afb/HAL_MOST_UNICENS/wrap-json.c:535-560 | The second switch ends the run at the base, performs the look-ahead of an array (out of range at the end of the string too), or ends a member and its absence |
| WrapJsonUnpackMachine.SkipCountTells | HAL-afb/HAL_MOST_UNICENS/wrap-json.c:384-396 | The counter that equals 1 + containers opened + keys pending since an absent key is positive exactly inside that key's value, and goes down by one with each container closed and each member finished |
| WrapJsonUnpackMachine.PushKeepsWf | HAL-afb/HAL_MOST_UNICENS/wrap-json.c:488-511 | Opening a container keeps stack, types and skip counter in agreement, whatever the unset size of a skipped frame holds |
| WrapJsonUnpackMachine.StackFacts | HAL-afb/HAL_MOST_UNICENS/wrap-json.c:492-508 | Outside absent values the size of the innermost container has been set, so no unset size is ever compared |
| WrapJsonUnpackMachine.TurnEnds | HAL-afb/HAL_MOST_UNICENS/wrap-json.c:523-531 | `!` ends the run unless the closer follows and, outside absent values, the visit was complete; then only the closer is accepted |
| WrapJsonUnpackMachine.AfterMember | HAL-afb/HAL_MOST_UNICENS/wrap-json.c:552-557 | The end of a member keeps the machine well formed and the rest of the run unchanged; the absence of its key ends there |
| WrapJsonUnpackGrammar.UnpackAccepts | HAL-afb/HAL_MOST_UNICENS/wrap-json.c:363-561 | Unpacking returns 0 exactly when the format is a word of the grammar that nests at most 32 containers and the tree fits it: types, present or optional keys, enough items, strictness; it then writes each target with the value at its path, in order, and nothing else |
| WrapJsonMisfits.UnpackJudges | HAL-afb/HAL_MOST_UNICENS/wrap-json.c:363-561 | With a well-formed format, unpacking and checking fail with the first of these, in the order of the format: more than 32 nested containers, a wrong type, too few elements, a NULL key, a missing key, an incomplete visit; pointers of the wrong type are undefined |
| WrapJsonMisfits.ValueJudged | HAL-afb/HAL_MOST_UNICENS/wrap-json.c:371-521 | The same for each value inside a format |
| WrapJsonMisfits.SpecifiersStore | HAL-afb/HAL_MOST_UNICENS/wrap-json.c:402-478 | Which trees each of s, n, b, i, I, f, F, o and O accepts, what it stores of them, and the error for any other tree |
| WrapJsonMisfits.WrongPointers | HAL-afb/HAL_MOST_UNICENS/wrap-json.c:402-478 | A pointer of the wrong type is undefined behaviour, whatever the tree |
| WrapJsonUnpackGrammar.ValueSound | HAL-afb/HAL_MOST_UNICENS/wrap-json.c:371-521 | Every value matched is the spelling of a syntax tree that the tree fits, with the writes of the fit |
| WrapJsonUnpackGrammar.ValueComplete | HAL-afb/HAL_MOST_UNICENS/wrap-json.c:371-521 | Every spelling of a syntax tree that the tree fits is matched, with the writes of the fit |
| WrapJsonUnpackLaws.AbsentWritesNothing | HAL-afb/HAL_MOST_UNICENS/wrap-json.c:402-478 | No target inside the value of an absent optional key is written, whether the run succeeds or fails there |
| WrapJsonUnpackLaws.StrictnessNeedsDistinctKeys | HAL-afb/HAL_MOST_UNICENS/wrap-json.c:387-389 | Comparing the count of successful lookups with the size tells whether every member was visited, for all objects, exactly when the keys are distinct |
| WrapJsonUnpackLaws.StrictFits | HAL-afb/HAL_MOST_UNICENS/wrap-json.c:523-550 | With distinct keys, a strict object fits exactly when the plain one fits and every member is looked up; a strict array, when every element is visited once and in order |
| WrapJsonUnpackLaws.StrictRepeatedKey | HAL-afb/HAL_MOST_UNICENS/wrap-json.c:526-527 | Looking up one key twice passes as a complete visit of exactly the objects with two members |
| WrapJsonUnpackLaws.StrictGoesWrong | HAL-afb/HAL_MOST_UNICENS/wrap-json.c:526-527 | An object whose only member is looked up twice is refused as incomplete, and one with a member never visited is accepted |
| WrapJsonUnpackLaws.CheckAnswersLikeUnpack | HAL-afb/HAL_MOST_UNICENS/wrap-json.c:599-645 | Checking with the keys alone answers what unpacking answers: success, or the same error at the same position |
| WrapJsonUnpackLaws.ValueInStep | HAL-afb/HAL_MOST_UNICENS/wrap-json.c:402-478 | A check and a storing run that stand at the same place read the next value to the same place, or fail alike |
| WrapJsonRoundTrip.RoundTrip | HAL-afb/HAL_MOST_UNICENS/wrap-json.c:104-561 | What packing builds from a format over s, s%, n, b, i, I, f, o, O, arrays and objects with distinct keys, unpacking with the same format, plain or with `!` before every closer, stores back exactly, booleans as 0 or 1 |
| WrapJsonRoundTrip.PackThenUnpack | HAL-afb/HAL_MOST_UNICENS/wrap-json.c:104-561 | The same from the format string alone, unpacked with the very same string or with its strict form: any format without modifiers whose packing succeeded |
| WrapJsonRoundTrip.DualRoundTrip | HAL-afb/HAL_MOST_UNICENS/wrap-json.c:104-561 | For members with `*`, the format with `s?` in their place, in any spelling, plain or strict, stores back exactly the packed arguments; nothing is stored for the members left out because their arguments are NULL or empty |
| WrapJsonRoundTrip.DualIsSpelled | HAL-afb/HAL_MOST_UNICENS/wrap-json.c:371-561 | That format has a spelling |
| WrapJsonRoundTrip.DenoteWidth | HAL-afb/HAL_MOST_UNICENS/wrap-json.c:242-285 | A `*` makes a value null exactly when its arguments are NULL or empty, changes nothing otherwise, and takes the same arguments |
| WrapJsonRoundTrip.AbsentFits | HAL-afb/HAL_MOST_UNICENS/wrap-json.c:402-478 | The value of an absent optional key is passed over with all its targets, and nothing is stored |
| WrapJsonRoundTrip.PackedFits | HAL-afb/HAL_MOST_UNICENS/wrap-json.c:136-285 | The denotation of a format, members with `*` included, fits the dual format, strict or not, and gives the packed arguments back |
| WrapJsonUnambiguous.PrintIsFormat | HAL-afb/HAL_MOST_UNICENS/wrap-json.c:371-561 | Every syntax tree of the unpacking grammar is spelled by its printed text |
| WrapJsonUnambiguous.OneReading | HAL-afb/HAL_MOST_UNICENS/wrap-json.c:371-561 | Two syntax trees of the unpacking grammar spelled at one cursor are equal |
| WrapJsonUnambiguous.Readings | HAL-afb/HAL_MOST_UNICENS/wrap-json.c:128-285 | Two syntax trees of the packing grammar spelled at one cursor end at one cursor and differ at most in the place of `?` |
| WrapJsonUnambiguous.AlikeSame | HAL-afb/HAL_MOST_UNICENS/wrap-json.c:147-158 | Such trees have the same limits and the same denotation |
| WrapJsonUnambiguous.PackByReading | HAL-afb/HAL_MOST_UNICENS/wrap-json.c:104-285 | For any reading of a format, packing succeeds exactly when that reading builds the result |
| WrapJsonUnambiguous.UnpackByReading | HAL-afb/HAL_MOST_UNICENS/wrap-json.c:363-561 | For any reading of a format, unpacking succeeds exactly when the tree fits that reading |
| WrapJsonRebuild.UnpackThenPack | HAL-afb/HAL_MOST_UNICENS/wrap-json.c:104-561 | After unpacking with a shared format into distinct targets, packing what is stored there with the same format builds the tree again exactly when no integer under `i` exceeds 32 bits, no string under `s` holds a NUL, no item under `o` or `O` is null, no optional key is absent, everything has been visited (which strictness implies) and at most 31 containers nest |
| WrapJsonRebuild.Rebuilt | HAL-afb/HAL_MOST_UNICENS/wrap-json.c:128-285 | The same for a value inside a tree: the denotation of the stored values is the value exactly when it is faithful to its format |
| WrapJsonRebuild.FitWritesOwn | HAL-afb/HAL_MOST_UNICENS/wrap-json.c:402-478 | With distinct targets no target is written twice, and a value writes only the targets among its own arguments |
| WrapJsonRebuild.IntegerIsClamped | HAL-afb/HAL_MOST_UNICENS/wrap-json.c:435-445 | 2^32 under `i` comes back as 2^31 - 1 |
| WrapJsonRoundTrip.SpellingCarries | HAL-afb/HAL_MOST_UNICENS/wrap-json.c:44-50 | A string that spells a shared format for packing spells it for unpacking, also after `!` is put before every closer |
| WrapJsonReturnCode.PositionComesBack | HAL-afb/HAL_MOST_UNICENS/wrap-json.c:73-78 | The error position is recovered, counted from 1, exactly when it is below 2^27 |
| WrapJsonReturnCode.CodeComesBack | HAL-afb/HAL_MOST_UNICENS/wrap-json.c:80-85 | The error code is recovered unless the shifted position turned negative |
| WrapJsonReturnCode.CodesAtStart | HAL-afb/HAL_MOST_UNICENS/wrap-json.c:26-43 | The numbers of the errors |
| WrapJsonReturnCode.ReturnCodesDiffer | HAL-afb/HAL_MOST_UNICENS/wrap-json.c:593-596 | Errors at positions below 2^27 have different return codes, and none is 0 |
| WrapJsonReturnCode.PackErrorsTell | HAL-afb/HAL_MOST_UNICENS/wrap-json.c:287-325 | Every error of packing lies within the format; if the format is shorter than 2^27 characters the return code is negative and gives back code and position |
| WrapJsonReturnCode.UnpackErrorsTell | HAL-afb/HAL_MOST_UNICENS/wrap-json.c:562-597 | The same for checking and unpacking, whatever tree and arguments |
| WrapJsonReturnCode.PackFormatsTell | HAL-afb/HAL_MOST_UNICENS/wrap-json.c:287-325 | The return codes of all packing errors, over all formats of n characters and all arguments, tell code and position exactly if n is below 2^27 |
| WrapJsonReturnCode.UnpackFormatsTell | HAL-afb/HAL_MOST_UNICENS/wrap-json.c:562-597 | The same for checking and unpacking |
| MostVolumeProtocol.Reachable | HAL-afb/HAL_MOST_UNICENS/ucs2-vol/src/device_container.cpp:69-187 | In every reachable state the container is busy exactly if one message is in flight and one value busy, whose payload stands for its transmitted value; exactly one timer is armed if the service has been requested and none otherwise; whoever needs an update is covered by a message or a service request |
| MostVolumeProtocol.StepKeepsInv | HAL-afb/HAL_MOST_UNICENS/ucs2-vol/src/device_container.cpp:69-187 | Every step keeps that invariant: new targets, nodes that come and go, timers, writes accepted or refused, answers |
| MostVolumeProtocol.QuietMeansSynchronised | HAL-afb/HAL_MOST_UNICENS/wrap_volume.c:31-55 | In every reachable state without timer and message, every value of a node that came last is confirmed at the value set last for its key |
| MostVolumeProtocol.QuietMeansConfirmed | HAL-afb/HAL_MOST_UNICENS/wrap_volume.c:31-55 | Then what an observer of the bus saw confirmed for it is what was set last |
| MostVolumeProtocol.SetTargetSets | HAL-afb/HAL_MOST_UNICENS/ucs2-vol/src/device_container.cpp:69-90 | A new target reaches every value with the key and changes nothing else of any value |
| MostVolumeProtocol.SwitchSwitches | HAL-afb/HAL_MOST_UNICENS/ucs2-vol/src/device_container.cpp:171-187 | A node that comes or goes changes the availability of its values and forgets what was confirmed, and nothing else |
| MostVolumeProtocol.GoalsAreLastSet | HAL-afb/HAL_MOST_UNICENS/ucs2-vol/src/device_container.cpp:69-187 | After any run the target of each value is the one set last for its key, or 1, and it is available exactly if its node came last |
| MostVolumeProtocol.StepArms | HAL-afb/HAL_MOST_UNICENS/ucs2-vol/src/device_container.cpp:69-187 | Which step arms a timer, and after 0 or 30 ms |
| MostVolumeProtocol.FirstScanFromStart | HAL-afb/HAL_MOST_UNICENS/ucs2-vol/src/device_container.cpp:33-59 | The first scan after registration begins with the first value |
| MostVolumeProtocol.ScanFindsNext | HAL-afb/HAL_MOST_UNICENS/ucs2-vol/src/device_container.cpp:92-136 | One cycle stops at the first value in cyclic order that needs an update, and misses none |
| MostVolumeProtocol.Fairness | HAL-afb/HAL_MOST_UNICENS/ucs2-vol/src/device_container.cpp:92-136 | A value that keeps needing an update is offered to the bus within n free runs of the service routine, whatever else happens and even if writes are refused |
| MostVolumeProtocol.Converges | HAL-afb/HAL_MOST_UNICENS/ucs2-vol/src/device_container.cpp:105-151 | Every run, with any refusals, errors, new targets and nodes that come or go, is at most as long as the measure of its first state plus the costs of its events: 1 for a refused write, 3 for an error, 3n + 2 for a target or a node. A state in which nothing is left to do has every available value confirmed, with the target it had at the start if there were no new ones |
| MostVolumeProtocol.FairRunsEnd | HAL-afb/HAL_MOST_UNICENS/ucs2-vol/src/device_container.cpp:105-151 | With no new targets and a bus that accepts and confirms, every run ends within the measure of its first state |
| MostVolumeProtocol.StepDecreases | HAL-afb/HAL_MOST_UNICENS/ucs2-vol/src/device_value.cpp:90-143 | Each step decreases 3 times the values behind, plus 2 for a message in flight, plus 1 for a service request, up to the cost of its event |
| MostVolumeProtocol.HonestConfirmation | HAL-afb/HAL_MOST_UNICENS/ucs2-vol/src/device_value.cpp:59-143 | In every reachable state the confirmed value is what an observer of the bus derives: the payload last sent when the bus last confirmed, or 1 if the node came or went since or nothing was confirmed |
| MostVolumeProtocol.PayloadDecodes | HAL-afb/HAL_MOST_UNICENS/ucs2-vol/src/device_value.cpp:59-87 | The three payload bytes determine the volume value, and the first one the channel: 7, 8 and 9 |
| MostVolumeDevices.DeviceContainer.SetValue | HAL-afb/HAL_MOST_UNICENS/ucs2-vol/src/device_container.cpp:69-90 | The loop over the list performs the protocol's step |
| MostVolumeDevices.DeviceContainer.Update | HAL-afb/HAL_MOST_UNICENS/ucs2-vol/src/device_container.cpp:105-142 | The service routine performs the protocol's step |
| MostVolumeDevices.DeviceContainer.FindNext | HAL-afb/HAL_MOST_UNICENS/ucs2-vol/src/device_container.cpp:116-120 | The loop over one cycle stops where the protocol's scan stops |
| MostVolumeDevices.DeviceContainer.ChangeNodeAvailable | HAL-afb/HAL_MOST_UNICENS/ucs2-vol/src/device_container.cpp:171-187 | The loop over the list performs the protocol's step |
| MostVolumeDevices.DeviceContainer.BusAnswers | HAL-afb/HAL_MOST_UNICENS/wrap_unicens.c:272-284 | An answer of the bus, its status cut to a byte, reaches the value and the container and performs the protocol's step |
| MostVolumeDevices.AnswerConfirms | HAL-afb/HAL_MOST_UNICENS/wrap_unicens.c:279 | An answer confirms the transmitted value exactly when 256 divides the status; -256 does |
| MostVolumeDevices.DeviceContainer.TimerFires | HAL-afb/HAL_MOST_UNICENS/wrap_volume.c:31-45 | A timer that fires performs the protocol's step |
| MostVolumeDevices.DeviceContainer.constructor | HAL-afb/HAL_MOST_UNICENS/ucs2-vol/src/device_container.cpp:33-59 | A registered list of fresh values is an initial state |
| MostVolumeDevices.DeviceValue.HandleI2cResult | HAL-afb/HAL_MOST_UNICENS/ucs2-vol/src/device_value.cpp:126-143 | A confirmed value is applied, the container, if one is to be notified, is free and asks for service, the value is free |
| MostVolumeDevices.DeviceValue.FireUpdateMessage | HAL-afb/HAL_MOST_UNICENS/ucs2-vol/src/device_value.cpp:100-124 | The payload is written, and the value becomes busy with a copy of it on the wire exactly if the bus accepts |
| MostVolumeDevices.DeviceValue.ApplyMostValue | HAL-afb/HAL_MOST_UNICENS/ucs2-vol/src/device_value.cpp:59-87 | The first three bytes of the buffer become the payload of the value |
| AlsaTlv.DecodeTlv | Alsa-afb/Alsa-SetGet.c:116-330 | The recursive decoder with its loop over a container's words computes the specified tree, and reads no word outside the buffer unless the answer is `Undefined` |
| AlsaTlv.TypesAre | Alsa-afb/Alsa-SetGet.c:135-325 | What a record of two words is read as, for every type number |
| AlsaTlv.SizeErrors | Alsa-afb/Alsa-SetGet.c:124-147 | A record that is too short or claims too much is refused, a container also for such a first child; no other leaf is |
| AlsaTlv.UndefinedIffRuinous | Alsa-afb/Alsa-SetGet.c:143-325 | Decoding is undefined exactly when it meets, at any depth, a leaf whose size is no multiple of 4 or a dB range with entries |
| AlsaTlv.OddLeaf | Alsa-afb/Alsa-SetGet.c:165-173 | A dB scale of 5 bytes is undefined |
| AlsaTlv.ChildInside | Alsa-afb/Alsa-SetGet.c:143-153 | A child that passes the size test lies inside its container's own words and claims strictly fewer bytes |
| AlsaTlv.DecodingInvertsEncoding | Alsa-afb/Alsa-SetGet.c:124-156 | Decoding the encoded words of any tree gives the tree without the last children that have no payload; it is the tree itself exactly when every container's last child has a payload |
| AlsaTlv.LastChildDropped | Alsa-afb/Alsa-SetGet.c:124-156 | A container whose only child is an empty container decodes as an empty container |
| AlsaRequests.ParseNumids | Alsa-afb/Alsa-SetGet.c:31-98 | For reading and writing, every slot of the table is filled from its token, the short form [number, values] becomes one request, and a token without a number leaves the slot's old number |
| AlsaRequests.SetGetControls | Alsa-afb/Alsa-SetGet.c:715-794 | For no, one or several requests, the selection and the warnings compute the specified table, answers, response and warnings, whatever the table held before |
| AlsaRequests.VisitNamed | Alsa-afb/Alsa-SetGet.c:723-765 | The loop over the card serves the first request that names each control, and the response is a list, a single value, or nothing |
| AlsaRequests.VisitAll | Alsa-afb/Alsa-SetGet.c:727-765 | Without requests every control is read, and the response lists what can be read in the order of the card |
| AlsaRequests.EveryRequestAnsweredOnce | Alsa-afb/Alsa-SetGet.c:723-789 | For any request list and a card with distinct numbers, what is read or written is, number by number and value by value, what the served slots hold; the response shows all that was read; and answers and warnings together are as many as the requests |
| AlsaRequests.WriteIsDone | Alsa-afb/Alsa-SetGet.c:441-515 | The first request that names a control is answered with its value exactly if the card accepts the write and the value is a number or a list with elements; else it is reported as refused |
| AlsaRequests.ReadIsDone | Alsa-afb/Alsa-SetGet.c:519-535 | The first request that names a control is answered with the reading exactly if the control can be read; else it is reported as refused |
| AlsaRequests.UnknownIsWarned | Alsa-afb/Alsa-SetGet.c:776-789 | A request for a number that the card lacks or that an earlier request has is reported, with the reason |
| AlsaRequests.SpellingsAgree | Alsa-afb/Alsa-SetGet.c:42-90 | The spellings of a request mean the same: a number, a list and an object for reading; the list, the object and the short form for writing |
| AlsaRequests.MalformedIsRefused | Alsa-afb/Alsa-SetGet.c:58-97 | For writing, a list without exactly one value, an object without value, and what has no number are malformed |
| AlsaRequests.NumbersOfTokens | Alsa-afb/Alsa-SetGet.c:45-62 | Numbers beyond 32 bits are cut, negative ones are unsigned |
| AlsaRequests.ResponseShapes | Alsa-afb/Alsa-SetGet.c:719-765 | One request gets its value alone or nothing, several a list, writing nothing |
| AlsaRequests.ReadingsAreInOrder | Alsa-afb/Alsa-SetGet.c:727-765 | Reading all controls lists what can be read in the order of the card |
| AlsaRequests.AnswersFollowCard | Alsa-afb/Alsa-SetGet.c:723-765 | Answers come in the order of the card |
| AlsaRequests.WarningsFollowRequests | Alsa-afb/Alsa-SetGet.c:776-789 | Warnings come in the order of the requests |
| AlsaRequests.FailureLeavesValue | Alsa-afb/Alsa-SetGet.c:618-637 | A reading that fails late leaves its value in a slot that is not served |
| AlsaRequests.SecondRequestForgotten | Alsa-afb/Alsa-SetGet.c:50-55 | A number after one other request, in a list for writing, has neither answer nor warning |
| AlsaRequests.StaleNumbersMatter | Alsa-afb/Alsa-SetGet.c:66-97 | Answers and warnings are the same whatever the uninitialised table held, for any card, exactly when every parsed token has a number |
| AlsaRequests.StaleNumberWins | Alsa-afb/Alsa-SetGet.c:737-743 | A malformed request whose slot held 2 is served with control 2, and the valid request for 2 after it is reported as not existing |
| AlsaRequests.FirstIsServed | Alsa-afb/Alsa-SetGet.c:737-743 | The first request that names a control is the one it serves |
| AlsaRequests.OthersAreLeft | Alsa-afb/Alsa-SetGet.c:737-743 | A request that is not the first to name its control, or names none, is left as parsed |
| AfbWebsock.SearchEnds | htdocs/AFB-websock.js:144-147 | The search ends on an unused id within 4096 turns if fewer than 4096 calls are pending, and otherwise after no number of turns |
| AfbWebsock.CallsCanWait | htdocs/AFB-websock.js:142-153 | Any number of calls up to 4096 can be pending at once |
| AfbWebsock.CallNeverEnds | htdocs/AFB-websock.js:144-147 | After 4096 calls without a reply, the search of the next call does not end in any number of turns |
| AfbWebsock.PromisesAccounted | htdocs/AFB-websock.js:108-153 | Over any run no promise is settled twice, a reply settles the promise of the call that sent its id, and settled plus pending promises are the calls made |
| AfbWebsock.RepliesSettle | htdocs/AFB-websock.js:42-128 | Over any run the settlements are, in order, those of the successes and errors for waiting calls: with their id and answer, resolved exactly by code 3 and rejected exactly by code 4 |
| AfbWebsock.OneReply | htdocs/AFB-websock.js:108-135 | A reply settles the promise that waits under its id and removes it; any other event settles nothing |
| AfbWebsock.FirstFree | htdocs/AFB-websock.js:144-147 | The id found is the next one after the counter, modulo 4096, that is not in use |
| AfbWebsock.Websocket.Call | htdocs/AFB-websock.js:142-153 | The do-while loop finds the next unused id and the promise is stored under it; with 4096 calls pending it is still searching after any number of turns, and nothing but the counter has changed |
| AfbWebsock.Websocket.OnMessage | htdocs/AFB-websock.js:108-135 | A success or an error settles the promise pending under its id, if any; other messages settle nothing |
| VolumeRamp.LevelIsMonotone | HAL-afb/HAL-interface/hal-volramp.c:22-50 | With positive steps, whatever the interleaving of timers and whatever controls cannot be set, the level stays between start and target and never moves back |
| VolumeRamp.RampEnds | HAL-afb/HAL-interface/hal-volramp.c:22-50 | Whatever controls cannot be set, k timers need at most k ticks more than the distance divided by the step, rounded up; when no timer is left and the last control could be set, the level is the target |
| VolumeRamp.RampTakes | HAL-afb/HAL-interface/hal-volramp.c:22-50 | If all controls can be set, k timers take exactly k - 1 ticks more than that quotient, or k if the ramp starts at its target |
| VolumeRamp.TargetReachedIff | HAL-afb/HAL-interface/hal-volramp.c:27-37 | The target is reached exactly when the level is there or the step in its direction is positive |
| VolumeRamp.HalVolRamp.TimerCallback | HAL-afb/HAL-interface/hal-volramp.c:22-58 | One firing performs one tick |
| VolumeRamp.NoStepNoRamp | HAL-afb/HAL-interface/hal-volramp.c:27-37 | With an upward step of 0 a ramp from 0 never reaches 10 |
| VolumeRamp.ConfigurationsThatReach | HAL-afb/HAL-interface/hal-volramp.c:131-178 | After a configuration request every ramp reaches its target exactly if the mode is one of the three known ones or, for other requests, the resulting steps are positive |
| VolumeRamp.ConfigurationsAre | HAL-afb/HAL-interface/hal-volramp.c:131-178 | The steps and delays of the three modes, and what each other request changes |
| VolumeRamp.NewRampStarts | HAL-afb/HAL-interface/hal-volramp.c:69-115 | A new ramp starts at the level read and goes to the first value asked for |
| VolumeRamp.FirstElementCounts | HAL-afb/HAL-interface/hal-volramp.c:117-178 | Of a request or a value the first element counts, and 0 if there is none |
| VolumeRamp.HalVolRamp.Ramp | HAL-afb/HAL-interface/hal-volramp.c:117-178 | A request that is an array sets mode, slave, delay or a step from its first element, a known mode sets delay and steps too, and any other tag starts a ramp; other requests change nothing |
| VolumeRamp.HalVolRamp.StartRamp | HAL-afb/HAL-interface/hal-volramp.c:69-115 | A new ramp sets target and level and adds a timer; the target changes even when the level cannot be read |
| VolumeScaling.VolumeNormalise | HAL-afb/HAL-interface/hal-volume.c:65-150 | Every value is scaled in order, when setting also for an empty raw range; refusal and division by zero occur exactly in the cases named |
| VolumeScaling.ScaleChosen | HAL-afb/HAL-interface/hal-volume.c:71-89 | Integers are scaled by their raw range if they have no valid dB scale or one of more than 24 dB, and refused if that range is needed and empty; other values are passed on |
| VolumeScaling.LinearEnds | HAL-afb/HAL-interface/hal-volume.c:109-127 | The raw range is read as 0 to 100; 100 percent sets its width, which is its maximum exactly if its minimum is 0 |
| VolumeScaling.LinearIsProportional | HAL-afb/HAL-interface/hal-volume.c:109-127 | Both directions are proportional, for any range and value, up to the truncation |
| VolumeScaling.SetThenGet | HAL-afb/HAL-interface/hal-volume.c:109-127 | For a raw range from 0, setting a percentage and reading it back gives it minus the truncated remainder rounded up to whole steps: never more, equal exactly if 100 divides v times the range, at most 1 less for ranges of 100 or more |
| VolumeScaling.ScalesAreMonotone | HAL-afb/HAL-interface/hal-volume.c:109-127 | For a raw range from 0 both directions are monotone |
| VolumeScaling.VolumeByteIsVolume | HAL-afb/HAL_MOST_UNICENS/wrap_volume.c:57-68 | The scaled volume never exceeds 255, is 255/100 of the percentage rounded down, survives the cast to a byte exactly for percentages that are not negative, and is monotone on those |
| VolumeScaling.NegativeVolume | HAL-afb/HAL_MOST_UNICENS/hal_most_unicens.c:107-109 | A volume of -1, which is passed on unchecked, becomes 254 |

## Left out

- WrapJsonPack.Vpack: does not model reference counts, failing allocations, the sizing of the concatenation buffer or the clean-up of the stack after an error, because json-c and the C heap are not part of this model; a length beyond a 32-bit int is not truncated.
- WrapJsonVunpack.Interpret: targets hold values, not pointers into the tree, so the life time of strings and the reference counts of `O` are not modelled.
- WrapJsonBase: JSON objects are finite maps, so the order of members, which no interpreter reads, is not modelled; doubles are real numbers, so rounding of large integers read with `F`, NaN and infinities are not.
- WrapJsonRoundTrip.RoundTrip: is stated for keys that are distinct within each object; with repeated keys packing keeps the last value and unpacking stores it in every target of that key.
- The iteration helpers and the thin check, match and unpack wrappers of wrap-json.c, which only pass a flag or negate a result.
- MostVolumeProtocol.Converges: steps are atomic; `writei2c_cb` and `service_cb` are asynchronous, as the binding makes them. Time-outs are recorded but time is not modelled: an armed timer may fire at any moment.
- MostVolumeDevices.DeviceContainer.Update: the loop that scans is a method of its own, and the value is offered to the bus after it; the source does both in one loop with a break.
- One session of the volume library: releasing and re-creating the singleton, and calls before initialisation, are not modelled; `wrap_volume_pcm` only repeats the call for a list of channels.
- AlsaTlv.DecodeTlv: number formats, the labels of the verbose mode and channel names are not modelled. The type numbers are those of alsa-lib.
- AlsaRequests.SetGetControls: the values put into each channel of a control, the contents of a reading and the opening of the card are not modelled; whether a control can be read or written is a parameter.
- AfbWebsock.Websocket.Call: takes the number of turns that its search is followed for, because the source's loop may not end; names that JavaScript objects inherit, the token, event handlers and the calls pending when the socket closes are not modelled.
- VolumeRamp.RampEnds: the passing of time is not modelled; a timer may fire at any moment.
- WrapJsonRebuild.UnpackThenPack: is stated for the formats both grammars share, for targets that are not NULL and distinct, and for keys distinct within each object.
- VolumeScaling.VolumeNormalise: 32-bit overflow of the products, and the floating-point dB scale, which no branch reaches, are not modelled; the round trip is stated for minimum 0, since the set branch does not add the minimum.
- ALSA, systemd timers, the websocket and the daemon's calls are steps or parameters; card tables, use-case listing, event registration, the policy hook and the user interface are not modelled.
