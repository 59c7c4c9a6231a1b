# c2a-devtools console core, in Dafny

This project models the logic of the c2a-devtools browser console: the parts with precise behaviour, without the React UI or the transport code. It covers:

- **Command line and telecommand.** `parseCommandLine` reads one command-editor line into a command full name (`prefix.component.command`) and typed parameters: `0x` hex bytes with their `BigInt` value, integers and doubles. `buildTco` then checks the line against the satellite's command schema and emits a telecommand object (TCO) with named parameters: `time_indicator` first, then `param1..paramN`.
- **Namespace trees.** `digTreeBlueprintNamespace` makes a dotted path exist as nested namespaces and pushes a leaf that is in the way down under the key `""`. `buildTree` fills a blueprint with values.
- **Telemetry page.** It covers:
  - the field-tree blueprint built from dotted field names;
  - the split of `@RAW` fields from converted ones;
  - `prettyprintValue`;
  - the lookup of the telemetry a stream name `channel.component.telemetry` denotes.
- **Telemetry menu.** `formatU8Hex`, one menu item per channel × component × telemetry, and the sort that puts `RT.` first and then orders by string.
- **Shared worker hub.** The last value of every telemetry stream, and the streams the pages have opened. Each frame replaces its name's cached value and goes to every open stream of that name. A new stream first receives the cached value.
- **Base URL.** `baseUrlLoader`'s choice of the tmtc server URL, and the root redirect, in both `frontend/src/main.tsx` and `src/main.tsx`.

Modules, one per file:

| Module | Contents |
|---|---|
| `Wrappers` | `Option` and `Result` |
| `SeqLemmas` | generic sequence facts |
| `JsString` | the JavaScript string primitives the code uses: `trim`, `startsWith`, `split(".")`, `split(/\s+/)`, `toString(10)` and `toString(16)`, the class `[0-9a-fA-F]` |
| `CommandLine` | the line parser |
| `TcoBuilder` | the telecommand builder |
| `Tree` | namespace trees |
| `TelemetrySchema` | the schema records the telemetry views read |
| `TelemetryView` | the telemetry page |
| `Layout` | the menu |
| `TelemetryHub` | the worker |
| `BaseUrl` | base-URL selection and the root redirect |

Functions the code calls but does not define are parameters of the model. These are `parseFloat`, `Number(bigint)`, `toFixed(3)` and `decodeURIComponent`.

## Model

| member | source | states |
|---|---|---|
| CommandLine.ParseCommandFullName | src/components/CommandView.tsx:32-43 | a full name is accepted only as three dot-free parts that join back to it with dots; anything else fails with "invalid command full name" for that text |
| CommandLine.FullNameRoundTrip | src/components/CommandView.tsx:33-42 | every dot-free triple joined with dots is accepted and gives back the same triple, so a name parses exactly when it has three dot-free parts |
| CommandLine.PadEven | src/components/CommandView.tsx:50-52 | an odd count of digits is padded to the next even count, an even count is kept |
| CommandLine.DecodeHex | src/components/CommandView.tsx:53-57 | an even-length digit string gives one byte per two digits |
| CommandLine.HexValueLeadingZero | src/components/CommandView.tsx:50-52 | the padding `0` does not change the value of the digits |
| CommandLine.DecodeHexValue | src/components/CommandView.tsx:53-57 | the decoded bytes, read big-endian, have the value of the hex digits |
| CommandLine.DecodeHexAt | src/components/CommandView.tsx:54-57 | byte `j` of the decoding is the byte written by digit pair `j` |
| CommandLine.ParseHexBytes | src/components/CommandView.tsx:46-59 | success exactly for a non-empty all-hex digit string, else "invalid hex bytes syntax"; the byte count is ceil(digits / 2); the big-endian value of the bytes is the value of the digits |
| CommandLine.FillPairs | src/components/CommandView.tsx:53-57 | the index loop fills element `k` of a fresh byte array from digit pair `k`, giving exactly the pairwise decoding |
| CommandLine.PaddedValue | src/components/CommandView.tsx:50-57 | padding and then decoding keeps the value of the original digits |
| CommandLine.DigitPrefix | src/components/CommandView.tsx:66 | the digits `parseInt` reads are the longest run of digits at the front |
| CommandLine.ParseInt | src/components/CommandView.tsx:66 | `parseInt(s, 10)` is NaN exactly when no digit follows the leading whitespace and an optional sign; otherwise it is the value of the longest digit run there, negated exactly when the sign is `-` (so "-5.0", "-05" and "-12abc" are negative) |
| CommandLine.ParseIntOfDecimal | src/components/CommandView.tsx:66 | `parseInt(s, 10)` reads back the decimal text of every integer |
| CommandLine.ParseIntNaN | src/components/CommandView.tsx:66 | text with no digit after the leading whitespace and an optional sign is NaN to `parseInt` |
| CommandLine.ParseParameter | src/components/CommandView.tsx:45-78 | a token fails exactly when it starts with `0x` and the rest is empty or not all hex, always with "invalid hex bytes syntax"; a parsed token is bytes exactly when it starts with `0x`; any other token is the `parseInt` integer when `parseFloat` reads the same finite number, and otherwise the `parseFloat` double |
| CommandLine.HexParameter | src/components/CommandView.tsx:60-64 | a `0x` token fails exactly when its digits are empty or not all hex; otherwise it is bytes, ceil(digits / 2) of them, whose big-endian value is the `bigint` stored beside them and is the digits' value |
| CommandLine.DecimalParameter | src/components/CommandView.tsx:65-77 | any other token never fails; it is an integer exactly when `parseInt` finds it and `parseFloat` gives the same number, and then it is that integer; otherwise it is the double `parseFloat` gives, so a token without leading digits is a double |
| CommandLine.DecimalIntegerToken | src/components/CommandView.tsx:65-77 | the decimal text of any integer, negative ones included, is that integer whenever `parseFloat` reads it as the same number |
| CommandLine.ParseParameters | src/components/CommandView.tsx:80 | one parameter per token in token order, success exactly when every token parses; otherwise the error is that of the first token that fails |
| CommandLine.StripStopMarker | src/components/CommandView.tsx:28-29 | one leading `.` is removed and nothing else; text without it is kept |
| CommandLine.CommandTokens | src/components/CommandView.tsx:27-31 | the split of a line always yields at least the name token |
| CommandLine.ParseTokens | src/components/CommandView.tsx:31-84 | the first token is parsed as the full name and the rest as parameters; success exactly when the name and every parameter parse, and then the line holds exactly that name and those parameters, one per token after the name; a bad name is reported before any bad parameter, and a good name with a bad parameter gives the first failing parameter's error |
| CommandLine.ParseCommandLine | src/components/CommandView.tsx:26-85 | the same for a whole line, on the tokens left after trimming, dropping the marker and splitting: success exactly when the first token's name and every further token parse, and then the line holds that name and those parameters; the name's error comes first, then the first parameter's error |
| CommandLine.ParseIgnoresSurroundingSpace | src/components/CommandView.tsx:27 | whitespace around the line does not change the result |
| CommandLine.SurroundingSpaceTokens | src/components/CommandView.tsx:27-31 | whitespace around the line does not change its tokens |
| CommandLine.StopMarkerDiscarded | src/components/CommandView.tsx:27-31 | `.X` parses as `X` whenever `X` does not itself begin with a marker |
| CommandLine.StopMarkerTokens | src/components/CommandView.tsx:27-31 | `.X` and `X` split into the same tokens |
| CommandLine.TrimMarked | src/components/CommandView.tsx:27-28 | trimming a marked line keeps the marker and trims the rest at its end |
| CommandLine.ParseCommandLineRoundTrip | src/components/CommandView.tsx:26-85 | a marked line holding a dot-free name and whitespace-free tokens, separated by spaces, parses to that name and to those tokens' parameters, or to the first parameter error |
| CommandLine.MarkedLineTokens | src/components/CommandView.tsx:27-31 | a marked line of space-separated tokens splits back into exactly those tokens |
| CommandLine.JoinEnds | src/components/CommandView.tsx:31 | a line joined from non-empty tokens starts and ends with a token character |
| JsString.TrimStart | src/components/CommandView.tsx:27 | only the leading whitespace run is removed, and the rest is kept as it is |
| JsString.TrimEnd | src/components/CommandView.tsx:27 | only the trailing whitespace run is removed, and the rest is kept as it is |
| JsString.Trim | src/components/CommandView.tsx:27 | the trimmed text is no longer than the input and neither starts nor ends with whitespace |
| JsString.TrimSpec | src/components/CommandView.tsx:27 | `trim` keeps a middle slice that neither starts nor ends with whitespace, and drops only whitespace on both sides |
| JsString.TrimmedIsFixed | src/components/CommandView.tsx:31 | trimming a trimmed text changes nothing |
| JsString.TrimIdempotent | src/components/CommandView.tsx:27-31 | `trim` twice is `trim` once |
| JsString.TrimEndAppend | src/components/CommandView.tsx:27 | `trimEnd` leaves text in front of a non-blank part alone |
| JsString.TrimEndDropsSpace | src/components/CommandView.tsx:27 | trailing whitespace does not change `trimEnd` |
| JsString.TrimStartDropsSpace | src/components/CommandView.tsx:27 | leading whitespace does not change `trimStart` |
| JsString.TrimSurrounded | src/components/CommandView.tsx:27 | `trim` discards any whitespace around its input |
| JsString.TrimOfTrimEnd | src/components/CommandView.tsx:27-31 | trimming after `trimEnd` is trimming |
| JsString.Split | src/components/CommandView.tsx:33 | `split(".")` gives at least one part, no part holds the separator, and joining the parts gives back the text |
| JsString.SplitJoin | src/components/CommandView.tsx:33 | splitting inverts joining for parts without the separator |
| JsString.SplitWhitespace | src/components/CommandView.tsx:31 | `split(/\s+/)` always gives at least one token |
| JsString.SplitWhitespaceTokens | src/components/CommandView.tsx:31 | no token holds whitespace, and only the first and last can be empty; the last cannot when the text ends in a token |
| JsString.SplitTrimmedTokens | src/components/CommandView.tsx:31 | a trimmed non-blank line splits into non-empty whitespace-free tokens |
| JsString.SplitWhitespaceJoin | src/components/CommandView.tsx:31 | splitting on whitespace inverts joining with single spaces |
| JsString.NatToDecimalSpec | src/components/TelemetryView.tsx:59 | `${n}` is a run of digits worth `n` with no leading zero |
| JsString.IntToDecimal | src/components/TelemetryView.tsx:59 | the decimal text of an integer is its digits, after a `-` for a negative one, with no leading zero |
| JsString.NatToHexSpec | frontend/src/components/Layout.tsx:23 | `toString(16)` is a run of lower-case hex digits worth `n`, one digit exactly when `n < 16`, with no leading zero |
| JsString.HexByte | src/components/TelemetryView.tsx:62 | a byte as two lower-case hex digits worth that byte |
| JsString.LowerHexDigit | src/components/TelemetryView.tsx:62 | the digit `toString(16)` writes for `d` is lower case and worth `d` |
| TcoBuilder.ParamNameParts | src/components/CommandView.tsx:151 | slot `i` is named `param` followed by the decimal text of `i + 1` |
| TcoBuilder.ParamNamesDistinct | src/components/CommandView.tsx:151 | two slots have the same name exactly when they are the same slot, and no slot is named `time_indicator` |
| TcoBuilder.TimeIndicator | src/components/CommandView.tsx:124-146 | the time indicator is accepted exactly when it is no double; an integer is sent as that integer and bytes as their `bigint`, both as `time_indicator`; a double fails with "time indicator must be an integer" |
| TcoBuilder.ConvertParameter | src/components/CommandView.tsx:152-224 | a slot succeeds exactly when its data type accepts the value: bytes only in a BYTES slot, anything but a double in an INTEGER slot, anything in a DOUBLE or unlisted slot |
| TcoBuilder.ConvertParameterCases | src/components/CommandView.tsx:152-224 | a BYTES slot accepts only bytes, an INTEGER slot anything but a double, a DOUBLE slot everything; a slot of an unlisted data type is accepted and pushes nothing; each listed type sends its own kind of value; a rejection names the slot |
| TcoBuilder.ConvertedValues | src/components/CommandView.tsx:153-221 | an accepted value is sent as itself; bytes go to an INTEGER slot as their `bigint` and to a DOUBLE slot as `Number` of their `bigint`; an integer goes to a DOUBLE slot as its number |
| TcoBuilder.ConvertSlots | src/components/CommandView.tsx:148-225 | the slot loop pushes at most one parameter per slot |
| TcoBuilder.SlotRejects | src/components/CommandView.tsx:148-225 | the first slot that rejects its value decides the error of the whole loop |
| TcoBuilder.SlotFailureSticks | src/components/CommandView.tsx:148-225 | once a slot has thrown, no later slot changes the outcome |
| TcoBuilder.SlotStepAccepts | src/components/CommandView.tsx:152-224 | after accepted slots, one more slot succeeds exactly when it accepts its value |
| TcoBuilder.ConvertSlotsSuccess | src/components/CommandView.tsx:148-225 | the slots succeed exactly when every slot accepts its value |
| TcoBuilder.ConvertSlotsShape | src/components/CommandView.tsx:148-225 | with only listed types, there is one output per slot in slot order, named `param1..paramN`, each the conversion of its own parameter |
| TcoBuilder.TimeIndicatorParams | src/components/CommandView.tsx:123-147 | the time indicator adds exactly one parameter when present and none otherwise |
| TcoBuilder.BuildTco | src/components/CommandView.tsx:87-231 | the method, with its pop and its push loop, computes exactly `Build`, whose errors and success are stated by `BuildRejects`, `BuildRejectsSlot` and `BuildSucceeds` |
| TcoBuilder.ConvertSlotsLoop | src/components/CommandView.tsx:148-225 | the `for` loop computes exactly the slot conversion, including the first error |
| TcoBuilder.BuildChecksSchema | src/components/CommandView.tsx:92-121 | a built telecommand has a known prefix, a component defined for it, a known component and command, and exactly schema count + (1 with a time indicator) parameters |
| TcoBuilder.Build | src/components/CommandView.tsx:87-231 | a built telecommand is named `prefix.component.command` and has at most one parameter per parsed parameter |
| TcoBuilder.TcoParams | src/components/CommandView.tsx:122-225 | at most one output per parameter, and with a time indicator the first output is the converted last parameter |
| TcoBuilder.BuildRejects | src/components/CommandView.tsx:92-146 | the errors come in the source's order: an unknown prefix, then a prefix not defined for the component, then an unknown component, then an unknown command, then a wrong count (expected slots, got parameters), then a time indicator that is a double |
| TcoBuilder.BuildRejectsSlot | src/components/CommandView.tsx:148-191 | after those checks pass, the first slot that rejects its parameter decides the error: "value of param{k+1} must be bytes" for a BYTES slot, "must be an integer" otherwise |
| TcoBuilder.BuildSucceeds | src/components/CommandView.tsx:92-225 | `buildTco` succeeds exactly when the four lookups, the count, the time indicator and every slot pass |
| TcoBuilder.BuildName | src/components/CommandView.tsx:226 | the telecommand is named `prefix.component.command`, and splitting that name gives back the same triple |
| TcoBuilder.BuildParams | src/components/CommandView.tsx:113-225 | with a time indicator, the last parameter is sent first as `time_indicator`; with only listed types, there are schema count + extra outputs and output `extra + i` is `param{i+1}`, the conversion of parameter `i` |
| TcoBuilder.TcoParamsShape | src/components/CommandView.tsx:122-225 | the same, for the parameter list alone |
| TcoBuilder.SlotsAfterHead | src/components/CommandView.tsx:122-225 | the slot outputs keep their places behind the time indicator |
| TcoBuilder.BuildNamesUnique | src/components/CommandView.tsx:122-225 | a built telecommand never repeats a parameter name |
| TcoBuilder.DistinctNames | src/components/CommandView.tsx:122-151 | `time_indicator` followed by `param1..paramN` has no repeated name |
| TcoBuilder.DistinctConcat | src/components/CommandView.tsx:122-225 | one leading name unlike all the distinct slot names keeps the list free of repeats |
| Tree.ChildNamespace | src/tree.ts:13-31 | the namespace dig continues in is the existing namespace, a new one holding the leaf in the way under `""`, or a new empty one; it holds exactly the leaves that were under that name |
| Tree.Dig | src/tree.ts:5-33 | the path then leads through namespaces; an empty path changes nothing; only the entry for the first name is added or replaced |
| Tree.DigExistingPath | src/tree.ts:14-18 | digging a path that already leads through namespaces reuses them and changes nothing |
| Tree.DigIdempotent | src/tree.ts:5-33 | digging twice is digging once |
| Tree.DigCreatesMissing | src/tree.ts:26-30 | a missing name is created as a fresh namespace, and the dug namespace is then a new empty one |
| Tree.DigEmpty | src/tree.ts:26-32 | digging in an empty namespace builds a chain of fresh namespaces ending in an empty one |
| Tree.DigPushesLeafDown | src/tree.ts:19-24 | a leaf in the way moves into the new namespace under the key `""` |
| Tree.DigKeepsLeaves | src/tree.ts:5-33 | digging never loses or invents a leaf |
| Tree.LeafKeysUpdate | src/tree.ts:19-30 | replacing one entry changes the leaves below the namespace by that entry's leaves only |
| Tree.DigKeepsOffPath | src/tree.ts:12-32 | at every level, entries whose names are off the path are unchanged, with everything below them |
| Tree.DigKeepsLeafAt | src/tree.ts:5-33 | every leaf that does not sit on the dug path stays where it was |
| Tree.PutAt | src/components/TelemetryView.tsx:21-22 | setting an entry in the dug namespace places the node at that path in the root, and the path stays a namespace path |
| Tree.PutAtKeepsLeafAt | src/components/TelemetryView.tsx:22 | setting an entry keeps every leaf that is not at or below it |
| Tree.BuildNodeAt | src/tree.ts:40-56 | following a path in the built tree reaches the same path of the blueprint, built |
| Tree.BuildNode | src/tree.ts:44-55 | a leaf becomes a leaf holding `getValue` of its key and a namespace a namespace with the same names |
| Tree.BuildTree | src/tree.ts:40-56 | the built tree has exactly the blueprint's top-level names |
| Tree.BuildTreeLeaves | src/tree.ts:44-55 | the built tree has a leaf exactly where the blueprint has one, holding `getValue` of its key; it has namespaces where the blueprint has them, with the same keys |
| TelemetrySchema.FieldNames | src/components/TelemetryView.tsx:16 | one field name per field, in schema order |
| TelemetrySchema.Find | src/components/TelemetryView.tsx:199-204 | the value of the first entry with that name, or none exactly when no entry has it |
| TelemetryView.FieldPath | src/components/TelemetryView.tsx:19 | a field name has at least one segment |
| TelemetryView.AddField | src/components/TelemetryView.tsx:19-22 | after one loop step, the field's dotted path leads to a leaf holding the full field name |
| TelemetryView.BuildBlueprint | src/components/TelemetryView.tsx:15-25 | the loop builds exactly the blueprint of the field names taken in order |
| TelemetryView.FieldBlueprint | src/components/TelemetryView.tsx:15-25 | after the fields are added in order, the last field's dotted path leads to a leaf holding its full name |
| TelemetryView.AddFieldKeepsLeaf | src/components/TelemetryView.tsx:19-22 | adding a field keeps each leaf whose path is neither a prefix nor an extension of the field's path |
| TelemetryView.PrefixFreeFront | src/components/TelemetryView.tsx:18 | dropping the last field keeps the prefix-free condition |
| TelemetryView.FieldBlueprintLeaves | src/components/TelemetryView.tsx:15-25 | when no field path is a prefix of another, every field is a leaf holding its own name at its own dotted path |
| TelemetryView.PrefixFreePair | src/components/TelemetryView.tsx:18 | of two prefix-free fields, neither path is a prefix of the other |
| TelemetryView.FieldPathOfParts | src/components/TelemetryView.tsx:19 | `a` has the path `[a]`, and `a.b` the path `[a, b]` |
| TelemetryView.FieldBlueprintPair | src/components/TelemetryView.tsx:18-23 | two fields are added in order |
| TelemetryView.LaterFieldReplacesNamespace | src/components/TelemetryView.tsx:18-23 | field `a` after `a.b` replaces the namespace `a` by a leaf, so `a.b` is no longer in the tree |
| TelemetryView.EarlierFieldPushedDown | src/components/TelemetryView.tsx:18-23 | field `a.b` after `a` keeps both: `a.b` at `[a, b]` and `a` pushed down to `[a, ""]` |
| TelemetryView.LeafPushedDown | src/components/TelemetryView.tsx:18-23 | adding `a.b` to a tree with leaf `a` moves that leaf to `[a, ""]` |
| TelemetryView.SplitFields | src/components/TelemetryView.tsx:36-45 | the loop fills the two maps exactly as the converted and the raw field maps |
| TelemetryView.ConvertedFieldsStep | src/components/TelemetryView.tsx:38-44 | one more field changes a name's converted entry only when it is that name's converted value |
| TelemetryView.ConvertedFieldsKeys | src/components/TelemetryView.tsx:38-44 | there is a converted entry exactly for the names of fields without `@RAW` |
| TelemetryView.ConvertedFields | src/components/TelemetryView.tsx:38-44 | the converted map holds no `@RAW` name and at most one entry per field |
| TelemetryView.ConvertedLastWins | src/components/TelemetryView.tsx:43 | a converted entry holds the value of the last field of that name |
| TelemetryView.RawFieldsStep | src/components/TelemetryView.tsx:38-42 | one more field changes a name's raw entry only when it is that name's raw value |
| TelemetryView.RawFieldsKeys | src/components/TelemetryView.tsx:39-42 | there is a raw entry exactly for the names of `@RAW` fields with the 4-character suffix removed |
| TelemetryView.RawFields | src/components/TelemetryView.tsx:38-44 | the raw map holds at most one entry per field |
| TelemetryView.RawLastWins | src/components/TelemetryView.tsx:41 | a raw entry holds the value of the last raw field of that name |
| TelemetryView.BuildFieldTree | src/components/TelemetryView.tsx:32-51 | the method builds the tree of the blueprint with each leaf's pair of lookups |
| TelemetryView.FieldTreeLeaf | src/components/TelemetryView.tsx:46-50 | each leaf of the field tree holds the converted value and the `@RAW` value of its key, each `null` when absent |
| TelemetryView.PadStart2 | src/components/TelemetryView.tsx:62 | `padStart(2, "0")` keeps text of two or more characters and left-fills a shorter one with `0` to two |
| TelemetryView.PaddedHexByte | src/components/TelemetryView.tsx:62 | a byte's padded hex text is its two-digit form |
| TelemetryView.HexByteDigits | src/components/TelemetryView.tsx:62 | the two digits of a byte read back to that byte |
| TelemetryView.DecodeHexSnoc | src/components/TelemetryView.tsx:61-63 | two more digits decode to one more byte |
| TelemetryView.BytesTextShape | src/components/TelemetryView.tsx:60-63 | bytes print as 2 × count lower-case hex digits |
| TelemetryView.BytesText | src/components/TelemetryView.tsx:60-63 | bytes print as two characters per byte |
| TelemetryView.BytesTextIsHexBytes | src/components/TelemetryView.tsx:60-63 | the printed text is each byte's two-digit form, concatenated |
| TelemetryView.HexBytesTextShape | src/components/TelemetryView.tsx:60-63 | the two-digit text is all hex digits, two per byte |
| TelemetryView.HexBytesTextRoundTrip | src/components/TelemetryView.tsx:60-63 | the two-digit text decodes back to the same bytes |
| TelemetryView.BytesTextRoundTrip | src/components/TelemetryView.tsx:60-63 | the printed bytes, read back two digits per byte, are the same bytes |
| TelemetryView.PrettyPrintSpec | src/components/TelemetryView.tsx:53-71 | `****` for a missing value; for an integer its decimal text `IntToDecimal`, which `parseInt` reads back; enum and string text verbatim; nothing only for an unset value; bytes print as 2 × count digits that a `0x` command parameter reads back to the same bytes and their big-endian value |
| TelemetryView.PrettyPrint | src/components/TelemetryView.tsx:53-71 | the page shows nothing exactly for an unset value |
| TelemetryView.TelemetryDefOfStreamName | src/components/TelemetryView.tsx:197-206 | the stream name `channel.component.telemetry` selects that component's telemetry of that name, whatever the channel; a missing component or telemetry is an error |
| TelemetryView.TelemetryDef | src/components/TelemetryView.tsx:197-206 | the 2nd dotted part selects the component and the 3rd the telemetry, and later parts are ignored; a found telemetry is what that component lists under the 3rd part; a missing 2nd part or component is a missing component; a missing 3rd part or telemetry is a missing telemetry |
| Layout.LastTwo | frontend/src/components/Layout.tsx:23 | `slice(-2)` keeps the last two characters, or all of a shorter text |
| Layout.NatToHexLastDigit | frontend/src/components/Layout.tsx:23 | the last hex digit is the lowest nibble |
| Layout.LowByteNibbles | frontend/src/components/Layout.tsx:23 | the two nibbles of the low byte are the lowest nibbles of `n / 16` and `n` |
| Layout.FormatSmall | frontend/src/components/Layout.tsx:22-24 | an id below 16 is labelled `0x0` and its digit |
| Layout.LastTwoOfLong | frontend/src/components/Layout.tsx:23 | the last two characters of longer text are its last two digits |
| Layout.FormatLarge | frontend/src/components/Layout.tsx:22-24 | a larger id is labelled with the two digits of its low byte |
| Layout.FormatU8HexSpec | frontend/src/components/Layout.tsx:22-24 | the label is `0x` and exactly two lower-case hex digits, worth the id when it fits a byte and the id mod 256 otherwise |
| Layout.FormatU8Hex | frontend/src/components/Layout.tsx:22-24 | the label is four characters, `0x` and two more |
| Layout.ChannelItems | frontend/src/components/Layout.tsx:102-106 | one item per channel |
| Layout.CollectMenuItems | frontend/src/components/Layout.tsx:93-108 | the triple loop collects exactly the items of every component, telemetry and channel, in loop order |
| Layout.TelemetryItemsCount | frontend/src/components/Layout.tsx:99-107 | a component contributes telemetries × channels items |
| Layout.TelemetryItemsMembers | frontend/src/components/Layout.tsx:99-107 | a component's items are exactly its telemetries' stream names on every channel, each with that telemetry's id |
| Layout.MenuItemsMembers | frontend/src/components/Layout.tsx:96-108 | the menu's items are exactly `channel.component.telemetry` over every triple, each with its telemetry's metadata id |
| Layout.MenuItems | frontend/src/components/Layout.tsx:96-108 | the menu has one item per (component, telemetry, channel) |
| Layout.MenuItemsAppend | frontend/src/components/Layout.tsx:96-108 | the menu of two lists of components is the first list's items followed by the second's |
| Layout.LexLessIrreflexive | frontend/src/components/Layout.tsx:119-124 | no name is less than itself |
| Layout.LexLessTotal | frontend/src/components/Layout.tsx:119-124 | of two different names exactly one is less |
| Layout.LexLessTransitive | frontend/src/components/Layout.tsx:119-124 | string order is transitive |
| Layout.CompareConsistent | frontend/src/components/Layout.tsx:109-126 | the comparator is 0 exactly for equal names and antisymmetric; "may come before" is total and transitive |
| Layout.Compare | frontend/src/components/Layout.tsx:109-126 | the comparator answers -1, 0 or 1, and -1 for a real-time item against another one |
| Layout.InOrderTotalPreorder | frontend/src/components/Layout.tsx:109-126 | the comparator's order is a total preorder, as a sort needs |
| Layout.RealTimeFirst | frontend/src/components/Layout.tsx:110-117 | in the sorted menu, every item before an `RT.` item is an `RT.` item |
| Layout.GroupsAscending | frontend/src/components/Layout.tsx:119-125 | among the `RT.` items and among the others, the sorted menu is in ascending string order |
| Layout.InsertingStart | frontend/src/components/Layout.tsx:109 | a sorted prefix starts an insertion |
| Layout.InsertingSwap | frontend/src/components/Layout.tsx:109 | swapping the inserted item past a neighbour that must come after it keeps the insertion state |
| Layout.InsertingDone | frontend/src/components/Layout.tsx:109 | an item in its place extends the sorted prefix |
| Layout.InsertItem | frontend/src/components/Layout.tsx:109 | one round of the sort extends the sorted prefix by one and permutes the array |
| Layout.SortItems | frontend/src/components/Layout.tsx:109-126 | `items.sort` leaves the array sorted by the comparator and a permutation of what it was |
| Layout.TelemetryListItems | frontend/src/components/Layout.tsx:93-127 | the menu is sorted and holds exactly the collected items, each as often as collected |
| TelemetryHub.Feed | frontend/src/worker.ts:32-41 | a feed never opens or closes a stream |
| TelemetryHub.OperationsKeepValid | frontend/src/worker.ts:29-71 | a frame, opening a stream and cancelling one each keep every open stream with a log and stream numbers fresh |
| TelemetryHub.PublishSkipsEmpty | frontend/src/worker.ts:35-37 | a response without a frame changes nothing |
| TelemetryHub.PublishCaches | frontend/src/worker.ts:38 | a frame replaces its name's cached value, keeps every other one and deletes none |
| TelemetryHub.Publish | frontend/src/worker.ts:34-40 | a feed item neither opens nor closes a stream and does not change the stream numbering |
| TelemetryHub.PublishDelivers | frontend/src/worker.ts:39-59 | a frame is appended to the log of exactly the streams listening to its name; other logs and the listeners are unchanged |
| TelemetryHub.OpenStarts | frontend/src/worker.ts:55-64 | a new stream is a fresh number listening to its name; it starts with the cached value, or with nothing for a name never seen; nothing else changes |
| TelemetryHub.Open | frontend/src/worker.ts:55-64 | the new stream number is not in use, listens to the requested name, and the cache is unchanged |
| TelemetryHub.CancelIsolated | frontend/src/worker.ts:65-67 | cancel removes only that stream's listener and no log or cached value; cancelling twice is cancelling once |
| TelemetryHub.Cancel | frontend/src/worker.ts:65-67 | the stream no longer listens, and no log, cached value or stream number changes |
| TelemetryHub.CancelledReceivesNothing | frontend/src/worker.ts:65-67 | after cancel no frame reaches the stream |
| TelemetryHub.PublishAppendsMatching | frontend/src/worker.ts:38-39 | one response appends to a listening stream exactly its frames of that name |
| TelemetryHub.FeedDelivers | frontend/src/worker.ts:32-41 | over a feed, an open stream receives exactly the frames of its name, in feed order |
| TelemetryHub.MatchingCons | frontend/src/worker.ts:34 | a feed's frames of a name are the first response's, then the rest's |
| TelemetryHub.FeedKeepsCache | frontend/src/worker.ts:29-41 | over a feed the cache only grows; a name keeps its value until a frame of that name arrives, and ends with the last such frame |
| TelemetryHub.OpenThenFeed | frontend/src/worker.ts:55-64 | a stream opened on a name gets the cached value before every later frame, and for a name never seen nothing before the first frame |
| TelemetryHub.FeedConcat | frontend/src/worker.ts:80-90 | a restarted feed continues from the state the previous one left: cache and streams carry over |
| TelemetryHub.TelemetryBroker.constructor | frontend/src/worker.ts:29-30 | the worker starts with an empty cache and no streams |
| TelemetryHub.TelemetryBroker.HandleResponse | frontend/src/worker.ts:34-40 | the loop body changes the worker's state exactly as one response does |
| TelemetryHub.TelemetryBroker.RunFeed | frontend/src/worker.ts:32-41 | `startTelemetryStream` changes the state exactly as its whole feed does |
| TelemetryHub.TelemetryBroker.RunFeeds | frontend/src/worker.ts:80-90 | the retry loop changes the state as its feeds one after another |
| TelemetryHub.TelemetryBroker.OpenStream | frontend/src/worker.ts:52-64 | opening a stream changes the state as `Open` does and returns the new stream |
| TelemetryHub.TelemetryBroker.CancelStream | frontend/src/worker.ts:65-67 | cancel changes the state as `Cancel` does |
| BaseUrl.NormalizeBaseUrl | frontend/src/main.tsx:29-39 | the base URL always starts with `http://` or `https://` |
| BaseUrl.NormalizeBaseUrlCases | frontend/src/main.tsx:30-38 | all digits become `http://localhost:N`; text starting `http://` or `https://` is kept; anything else gets `http://` in front |
| BaseUrl.SchemeIsNoPort | frontend/src/main.tsx:30 | a URL with a scheme is not all digits |
| BaseUrl.NormalizeIdempotent | frontend/src/main.tsx:29-39 | normalising a base URL again leaves it unchanged |
| BaseUrl.LoadBaseUrl | src/main.tsx:26-39 | the route parameter is percent-decoded before it is normalised; a decoding error is passed on |
| BaseUrl.RootRedirectSpec | frontend/src/main.tsx:80-86 | the root redirects to `/` and the page's own port when that is preferred and known, otherwise `/8900`; `src/main.tsx` always redirects to `/8900` |
| BaseUrl.RootRedirect | frontend/src/main.tsx:80-86 | the target is `/` and a non-empty port, `/8900` unless the page's own port is preferred and known |
| BaseUrl.LegacyRootRedirect | src/main.tsx:55-57 | the target is always `/8900` |
| BaseUrl.RedirectReachesLocalhost | frontend/src/main.tsx:80-86 | the redirect target's port segment, the page's own port or the default when the page has none, loads as that port on `localhost`, by default `8900` |

## Left out

- Floating point is not modelled:
  - `parseFloat`, `Number(bigint)` and `toFixed(3)` are parameters of the model;
  - a double is a `JsFloat`, a finite value or not;
  - whether `parseInt` and `parseFloat` agree is decided on that value alone.
- `CommandLine.ParseInt` does not model the rounding of numbers beyond 2^53. It reads the whole digit run as an exact integer.
- React and JSX rendering, the Monaco editor, its decorations and `localStorage` are UI with no logic to state.
- The stream reader in `TelemetryView` and `src/components/Top.tsx` are left out for the same reason.
- The worker's async and transport parts are left out. These are ComLink, SharedWorker `connect`, gRPC-web, `ReadableStream` plumbing and the 1000 ms retry timer. A feed is a finite sequence of responses applied one at a time. The endless retry loop is a finite sequence of feeds.
- `TelemetryHub.TelemetryBroker`: it keeps each stream's listener as a map from stream number to name, not the bus's listener lists. It records deliveries as a per-stream log instead of `controller.enqueue`.
- `src/client.ts` is not part of this model. It is message-passing plumbing.
- Process and build files are not part of this model, because they have no console logic. These are `src/main.rs`, `build.rs`, `frontend/vite.config.ts` and `frontend/src/error.ts`.
- SharedWorker creation, the router, schema fetching and `FriendlyError` are I/O in the base-URL loader, so they are left out. `decodeURIComponent` is a parameter.
- `src/main.tsx` repeats the base-URL code of `frontend/src/main.tsx` line for line. One `BaseUrl.NormalizeBaseUrl` serves both.
- The blueprint tree is modelled on values, not on shared mutable `Map`s:
  - `Tree.Dig` returns the updated root;
  - the namespace it hands back, which the caller then changes in place, is modelled by `Tree.PutAt` on the root.

  Aliasing between namespaces is not modelled.
- `Tree.Dig`, `Tree.BuildTree`, `Tree.BuildNode` and `TelemetryView.FieldBlueprint` keep namespaces as Dafny maps, which have no order. A JavaScript `Map` iterates in insertion order, and the field tree is shown in that order. The display order of fields is not modelled.
- `TcoBuilder.BuildTco`: the source pops the time indicator off the caller's parameter array. The model pops from a local copy, so the caller's array is not shown shrinking.
- `metadata!.id` is taken to be present: a telemetry carries its id.
- `Layout.LexLess` compares characters as Dafny `char` values. JavaScript compares UTF-16 code units, and the two orders differ only outside the Basic Multilingual Plane.
- `Layout.SortItems` is an insertion sort by the comparator; the engine's own sort algorithm is not modelled. Stability is not stated: equal names are equal items only up to their id.
- `TelemetryView.PrettyPrintSpec` does not state the text of a double, which comes from `toFixed(3)`.
- `TelemetryView.FieldBlueprintLeaves` is stated for field lists where no path is a prefix of another. The other cases are shown by `TelemetryView.LaterFieldReplacesNamespace` and `TelemetryView.EarlierFieldPushedDown`.
