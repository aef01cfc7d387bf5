# Keysight B1500 module replies, in Dafny

This project models the pure parsing core of the QCoDeS driver for the
Keysight B1500 semiconductor parameter analyzer, in
`qcodes/instrument_drivers/Keysight/keysightb1500/KeysightB1500_module.py`.
It covers three pieces of that file:

- `parse_module_query_response` reads the reply to `UNT? 0`. The reply is a
  list of `model,revision` pairs separated by `;`, one per slot. The function
  turns it into a map from slot number (1-based) to model name. Empty slots
  (model `0`) are dropped.
- `parse_spot_measurement_response` matches a spot-measurement reply against
  `_pattern`. The pattern is an optional three-character prefix (status,
  channel number, data type) followed by a signed decimal value with
  exponent. The function returns those fields and the value, or raises
  `ValueError`.
- `B1500Module.is_enabled` reads the reply to the output-switch learn query.
  It keeps only the digits and commas, splits the rest at `,` and reads each
  piece with `int`. It returns whether every channel of the module is among
  the numbers read.

The Python regular expressions are written out by hand:

- `findall` scans from left to right and does not overlap matches.
- `\w+` and `\d+` take maximal runs.
- In `re.match` the optional prefix is tried first.

Each hand-written matcher is proved equal to a declarative description of
what a match is: `IsHit` for the module pattern, and `IsSpotMatch` and
`IsValue` for the spot pattern. `str.split(",")` is modelled by `Split`,
and its inverse `Join` is proved to undo it. `int` on a digit string is
`ToInt`, which fails on the empty string as Python's does.

Modules:

- `Wrappers` (`wrappers.dfy`): `Option` and `Result`.
- `Chars` (`chars.dfy`): character classes (`\w`, `\d`), maximal runs, and
  decimal digit strings.
- `ModuleInventory` (`module_inventory.dfy`): the `UNT? 0` pattern, `findall`,
  and `parse_module_query_response`.
- `InventoryRevisions` (`inventory_revisions.dfy`): proves that the revision
  digits never change the inventory.
- `SpotMeasurement` (`spot_measurement.dfy`): `_pattern`, `re.match`, and
  `parse_spot_measurement_response`.
- `OutputState` (`output_state.dfy`): the filtering, splitting and
  aggregation in `is_enabled`.

All source cells below refer to
`qcodes/instrument_drivers/Keysight/keysightb1500/KeysightB1500_module.py`.

## Model

| member | source | states |
|---|---|---|
| ModuleInventory.MatchPrefixExact | qcodes/instrument_drivers/Keysight/keysightb1500/KeysightB1500_module.py:23 | The hand-written matcher `MatchPrefix` for `;?(?P<model>\w+),(?P<revision>\d+)` returns a match exactly when the text starts with an optional `;`, a maximal non-empty run of word characters, a comma and a maximal non-empty run of digits, and that match is unique. |
| ModuleInventory.MatchPrefixCorrect | qcodes/instrument_drivers/Keysight/keysightb1500/KeysightB1500_module.py:23 | When `MatchPrefix` finds something, it is a match of the pattern. When it finds nothing, no match of the pattern starts at that position. |
| ModuleInventory.FindAllIsLeftmostScan | qcodes/instrument_drivers/Keysight/keysightb1500/KeysightB1500_module.py:25 | `FindAll`, the model of `re.findall`, returns the leftmost-first, non-overlapping sequence of matches. Each match starts at the first position at or after the end of the previous one where the pattern matches. |
| ModuleInventory.ParseModuleQueryResponse | qcodes/instrument_drivers/Keysight/keysightb1500/KeysightB1500_module.py:27-31 | Every slot in the result is numbered from 1. No slot maps to the model `"0"`. Every model name is a non-empty string of word characters. |
| ModuleInventory.ParseModuleQueryResponseSpec | qcodes/instrument_drivers/Keysight/keysightb1500/KeysightB1500_module.py:25-31 | Given the leftmost scan of the reply, slot k is in the map exactly when 1 <= k <= the number of matches and the k-th model is not `"0"`. Slot k then maps to that model. |
| ModuleInventory.NoMatchGivesEmptyInventory | qcodes/instrument_drivers/Keysight/keysightb1500/KeysightB1500_module.py:25-31 | A reply in which the pattern matches nowhere gives the empty map. |
| ModuleInventory.ParseReplyText | qcodes/instrument_drivers/Keysight/keysightb1500/KeysightB1500_module.py:23-31 | Round trip: write a list of modules in the instrument's `model,revision;...` format and parse it back. Slot k is then present exactly when the k-th module is not `"0"`, and it maps to that module's model. |
| ModuleInventory.ParseExample | qcodes/instrument_drivers/Keysight/keysightb1500/KeysightB1500_module.py:27-31 | `"A,1;0,2;B,3"` parses to `{1: "A", 3: "B"}`: the empty slot 2 is dropped and the slot numbers are kept. |
| InventoryRevisions.RevisionDigitsIrrelevant | qcodes/instrument_drivers/Keysight/keysightb1500/KeysightB1500_module.py:23-31 | Replacing the digits of any revision (a maximal digit run right after a model's comma) with any other non-empty digits leaves the parsed inventory unchanged. |
| SpotMeasurement.ParseValueExact | qcodes/instrument_drivers/Keysight/keysightb1500/KeysightB1500_module.py:37 | The value matcher `ParseValue` accepts exactly a sign, 1 to 3 digits, `.`, 3 to 6 digits, `E`, a sign and 2 digits, and it reads those fields back. |
| SpotMeasurement.IsValueByText | qcodes/instrument_drivers/Keysight/keysightb1500/KeysightB1500_module.py:37 | A value matches at the start of a text exactly when its field counts are within the pattern's bounds and its spelling is a prefix of the text. |
| SpotMeasurement.MatchSpotExact | qcodes/instrument_drivers/Keysight/keysightb1500/KeysightB1500_module.py:35-38 | `MatchSpot`, the model of `re.match` with `_pattern`, gives a match m exactly when m is well formed and its text is a prefix of the reply. The three prefix groups are all present (word characters) or all absent. The match is unique. |
| SpotMeasurement.MatchSpotNone | qcodes/instrument_drivers/Keysight/keysightb1500/KeysightB1500_module.py:53-55 | `MatchSpot` returns `None` (as `re.match` does) exactly when no well-formed match is a prefix of the reply. |
| SpotMeasurement.ParseSpotMeasurementResponse | qcodes/instrument_drivers/Keysight/keysightb1500/KeysightB1500_module.py:53-59 | An error carries the rejected reply. On success, status, channel and data type are all absent, or they are the first three characters of the reply and each is a word character. |
| SpotMeasurement.ParseSpotSpec | qcodes/instrument_drivers/Keysight/keysightb1500/KeysightB1500_module.py:53-59 | A reply with a match m parses to m's fields with the decimal value of m. Parsing fails exactly when no match exists, and every success comes from some match. |
| SpotMeasurement.ParseSpotValueText | qcodes/instrument_drivers/Keysight/keysightb1500/KeysightB1500_module.py:37-59 | A successful reading's value is the decimal value of a well-formed value text. That text starts at position 0, or at position 3 after a three-word-character prefix. |
| SpotMeasurement.ParseSpotText | qcodes/instrument_drivers/Keysight/keysightb1500/KeysightB1500_module.py:53-59 | Round trip: writing out any well-formed match, followed by any text, parses back to exactly that match's reading. |
| SpotMeasurement.AppendKeepsReading | qcodes/instrument_drivers/Keysight/keysightb1500/KeysightB1500_module.py:53 | `re.match` anchors only at the start, so appending text to a reply that parses does not change the reading. |
| SpotMeasurement.PrefixWithoutSignFails | qcodes/instrument_drivers/Keysight/keysightb1500/KeysightB1500_module.py:36-37 | A reply that starts with three word characters not followed by a sign is rejected. |
| SpotMeasurement.TooManyIntegerDigitsFails | qcodes/instrument_drivers/Keysight/keysightb1500/KeysightB1500_module.py:37 | A value with four or more integer digits is rejected. |
| SpotMeasurement.TooManyFractionDigitsFails | qcodes/instrument_drivers/Keysight/keysightb1500/KeysightB1500_module.py:37 | A value with seven or more fraction digits is rejected. |
| SpotMeasurement.ParseHelloFails | qcodes/instrument_drivers/Keysight/keysightb1500/KeysightB1500_module.py:53-55 | `"hello"` raises the no-match error. |
| SpotMeasurement.ParseExampleWithMetadata | qcodes/instrument_drivers/Keysight/keysightb1500/KeysightB1500_module.py:53-59 | `"WAV+001.2345E+06"` reads as status `W`, channel `A`, data type `V`, value 1234500. |
| SpotMeasurement.ParseExampleBare | qcodes/instrument_drivers/Keysight/keysightb1500/KeysightB1500_module.py:53-59 | `"-001.234E-02"` reads with no metadata and value -0.01234. |
| OutputState.KeepDigitsAndCommas | qcodes/instrument_drivers/Keysight/keysightb1500/KeysightB1500_module.py:142 | `re.sub(r"[^,\d]", "", ...)` leaves only digits and commas and never lengthens the reply. |
| OutputState.KeepAppend | qcodes/instrument_drivers/Keysight/keysightb1500/KeysightB1500_module.py:142 | The filter works character by character: filtering a concatenation concatenates the filtered parts. |
| OutputState.Split | qcodes/instrument_drivers/Keysight/keysightb1500/KeysightB1500_module.py:142 | `split(",")` always yields at least one piece, and no piece contains a comma. |
| OutputState.JoinSplit | qcodes/instrument_drivers/Keysight/keysightb1500/KeysightB1500_module.py:142 | Joining the pieces of `Split` (the model of `split(",")`) with commas gives back the text. |
| OutputState.SplitJoin | qcodes/instrument_drivers/Keysight/keysightb1500/KeysightB1500_module.py:142 | `Split` of a comma-join of one or more comma-free pieces gives back those pieces. |
| OutputState.EmptyPieceIff | qcodes/instrument_drivers/Keysight/keysightb1500/KeysightB1500_module.py:142 | `split(",")` yields an empty piece exactly when the text is empty, starts or ends with a comma, or holds two adjacent commas. |
| OutputState.ToInt | qcodes/instrument_drivers/Keysight/keysightb1500/KeysightB1500_module.py:144-146 | `int` on a piece of digits fails exactly when the piece is empty, and otherwise gives a non-negative number. |
| OutputState.ToIntOfSpelling | qcodes/instrument_drivers/Keysight/keysightb1500/KeysightB1500_module.py:144-146 | `int` reads back the decimal spelling of every natural number. |
| OutputState.ToInts | qcodes/instrument_drivers/Keysight/keysightb1500/KeysightB1500_module.py:144-146 | Reading every piece with `ToInt` (the model of `int`) fails exactly when some piece is empty. Otherwise it gives one non-negative number per piece, in order. |
| OutputState.IsEnabled | qcodes/instrument_drivers/Keysight/keysightb1500/KeysightB1500_module.py:142-146 | `is_enabled` raises exactly when the filtered reply has an empty piece. Otherwise it is true exactly when every channel of the module is among the numbers the reply lists. |
| OutputState.IsEnabledFailsIff | qcodes/instrument_drivers/Keysight/keysightb1500/KeysightB1500_module.py:142-146 | `is_enabled` raises exactly when the filtered reply is empty, starts or ends with a comma, or holds two commas in a row, whatever the module's channels. |
| OutputState.FilteredRoundTrip | qcodes/instrument_drivers/Keysight/keysightb1500/KeysightB1500_module.py:142-146 | If the filtered reply is the comma list of some closed channels, `is_enabled` is true exactly when every module channel is among them. |
| OutputState.ReplyRoundTrip | qcodes/instrument_drivers/Keysight/keysightb1500/KeysightB1500_module.py:142-146 | Round trip: put any text without digits or commas around a non-empty channel list. `is_enabled` on that reply is true exactly when every module channel is in the list. |
| OutputState.EnabledExample | qcodes/instrument_drivers/Keysight/keysightb1500/KeysightB1500_module.py:144-147 | Channels 1 and 2 with reply `"CN1,2"` give true. |
| OutputState.PartlyEnabledExample | qcodes/instrument_drivers/Keysight/keysightb1500/KeysightB1500_module.py:126-147 | Channels 1 and 2 with reply `"CN1"` give false: all or nothing, as the documentation and the TODO at lines 133-134 say. |
| OutputState.SemicolonGroupsExample | qcodes/instrument_drivers/Keysight/keysightb1500/KeysightB1500_module.py:142-147 | Channels 1 and 2 with reply `"CN1;CN2"` give false: the filter runs the two groups together into the single number 12. |
| OutputState.NoClosedRelayRaises | qcodes/instrument_drivers/Keysight/keysightb1500/KeysightB1500_module.py:142-146 | As written: a reply with no digits and no commas (every relay open) makes `int("")` raise, whatever the channels. |
| OutputState.OpenRelayExample | qcodes/instrument_drivers/Keysight/keysightb1500/KeysightB1500_module.py:142-146 | As written: channels 1 and 2 with reply `"CL"` raise instead of returning false. |
| OutputState.IsEnabledIgnoringEmpty | qcodes/instrument_drivers/Keysight/keysightb1500/KeysightB1500_module.py:126-132 | Corrected: empty pieces are skipped. The answer is always a boolean, true exactly when every module channel is reported closed. |
| OutputState.IgnoringEmptyOpenRelays | qcodes/instrument_drivers/Keysight/keysightb1500/KeysightB1500_module.py:126-132 | Corrected: with every relay open, a module with at least one channel is reported not enabled (false, not an error). |
| OutputState.IgnoringEmptyAgrees | qcodes/instrument_drivers/Keysight/keysightb1500/KeysightB1500_module.py:142-147 | Corrected vs as written: on every reply where the code returns a value, the corrected version returns the same one. The two differ only where the code raises. |

## Left out

- The instrument I/O (`self.ask`, `self.write`) is not modelled. The reply
  text is a parameter of every operation.
- `MessageBuilder` and the query it builds (`UNT? 0`, the `LRN?` output-switch
  query) are not part of this model.
- `enable_outputs` and `disable_outputs` (lines 105-123) are not modelled.
  They only build and write a command, with no logic to state.
- The `B1500Module` class machinery is not modelled: `InstrumentChannel`,
  `__init__`, the `SlotNr` and `ModuleKind` types, and the channel tuple.
  A module's channels are a plain sequence of integers.
- ModuleInventory.ParseModuleQueryResponse: `SlotNr(slot_nr)` (line 28)
  comes from the `constants` module, which is not part of this model. It is
  modelled as the identity on every positive slot number, so the map never
  rejects a slot, however many pairs the reply holds.
- OutputState.ToInt: Python's limit on the number of digits in a string
  passed to `int` (4300 by default since Python 3.11) is not modelled.
  A longer piece raises `ValueError` in Python but reads as a number here.
- SpotMeasurement.DecimalValue: the value is the exact decimal (a `real`).
  Rounding to a binary `float` is not modelled.
- `\w`, `\d` and `int` are modelled on ASCII: letters, digits and `_`, and
  the digits `0`-`9`. Python's Unicode word and digit characters are not
  covered.
- SpotMeasurement.ParseSpotMeasurementResponse: the error carries the
  rejected reply. The text of the `ValueError` message, including the
  pattern's repr, is not modelled.
- The untyped dict and the `cast` are not modelled. A reading is a record
  with three optional characters and the value.
- The docstring of `is_enabled` (lines 129-131) promises `False` when not
  every channel is enabled. For a reply with no closed relay the code raises
  instead; see Findings. `OutputState.IsEnabled` models the code as written,
  and the corrected reading is the separate `OutputState.IsEnabledIgnoringEmpty`.

## Findings

| source | as written | input that shows it | evidently intended | confidence | as-written member | corrected member |
|---|---|---|---|---|---|---|
| qcodes/instrument_drivers/Keysight/keysightb1500/KeysightB1500_module.py:142-146 | The filtered reply is split at `,` and every piece goes to `int`. A reply with no closed relay, so no digits and no commas, filters to `""`. That splits to `[""]`, and `int("")` raises `ValueError`. | module channels `[1, 2]`, reply `"CL"` | return `False` (not all channels are enabled), as the docstring at lines 126-132 promises | not executed | OutputState.NoClosedRelayRaises, OutputState.OpenRelayExample | OutputState.IsEnabledIgnoringEmpty, OutputState.IgnoringEmptyOpenRelays |
