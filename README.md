# Caterham-OBD in Dafny

A verified model of the core of Caterham-OBD, a set of Python tools for talking
to the MBE 9A4 engine ECU of a Caterham over CAN/ISO-TP. The model covers:

- **the ECU client** (`mbe.py`, class `mbe`):
  - the reverse map page → address low byte → (name, width);
  - the per-page follow lists, kept ordered by address low byte;
  - the data request built from a follow list;
  - the decoder for the ECU's `81 …` reply;
  - the poll loop that merges decoded values into the caller's results;
- **the capture decoders** (`tools/mbepcap2txt.py`, `tools/mbepcap2ble.py`):
  - rebuilding the (name, width) list from a captured request;
  - decoding the matching response with a cursor that advances by each field's width;
  - the packet loop that labels frames and pairs each response with the latest request;
- **the EC2 converter** (`tools/ec2parse.py`):
  - the two-pass section finder;
  - the `PARAMETER DEFINITIONS`, `NUMERIC SCALES` and `PARAMETER PROTOTYPES` parsers;
  - the csv/json/py export filter;
- **the correlator** (`tools/correlator.py`): the search for a 16-bit value at
  every bit offset of the extended CAN frames in a Wireshark export.

Modules:

| file | module | what |
|---|---|---|
| util.dfy | Util | `Option`/`Result`; Python exceptions as `Fault` values; hex text, `binascii`, slicing, `str.strip/split/lower` |
| catalog.dfy | Catalog | the variable catalogue and `create_page_reverse_mapping` |
| scaling.dfy | Scaling | the linear rescale of a raw field over exact reals |
| mbe.dfy | Mbe | class `Ecu` (the `mbe` object) and class `ResultTable` (the caller's results dict) |
| pcap.dfy | Pcap | request walk, response decoder and packet loop of both capture tools |
| ec2parse.dfy | Ec2Parse | the EC2 converter script |
| correlator.dfy | Correlator | the window search script |

How the source is modelled:

- Every Python exception the code can raise is modelled as a `Fault` value
  (`KeyError(key)`, `IndexError`, `ValueError`, `ZeroDivisionError`,
  `TypeError`, `NameError`, and `AttributeError` when no reply comes), never
  as a precondition. So are `exit()` and a
  loop that would never end.
- The capture tools count packets from 1 and print the count plus one, so the k-th packet (from 0) is shown as number k+2; the model keeps that number.
- Loops are methods with invariants, each proved equal to a specification
  function. The properties are proved as lemmas about those functions.

## Model

| member | source | states |
|---|---|---|
| Catalog.CreatePageReverseMapping | mbe.py:62-71 | the loop builds the reverse map of the whole catalogue, and every variable can then be looked up under its page and the last two characters of its address |
| Catalog.MappingCovers | mbe.py:64-70 | every variable of the catalogue has an entry under its (page, low byte) |
| Catalog.MappingLastWriterWins | tools/mbepcap2txt.py:40-50 | the entry under (page, low byte) is the name and width of the LAST variable in catalogue order with that page and low byte; earlier ones are overwritten |
| Scaling.Scale | mbe.py:188-191 | the rescale is defined exactly when the width is non-zero; a zero width is Python's ZeroDivisionError |
| Scaling.ScaleAtZero | mbe.py:188-191 | raw 0 maps to scale_minimum |
| Scaling.ScaleAtFull | mbe.py:188-191 | raw 2^(8·bytes)−1 maps to scale_maximum |
| Scaling.ScaleWithinLimits | mbe.py:188-191 | a raw value of the field's width scales into [scale_minimum, scale_maximum] when minimum ≤ maximum |
| Scaling.ScaleMonotone | mbe.py:188-191 | the rescale is monotone in the raw value when minimum ≤ maximum |
| Mbe.Ecu.constructor | mbe.py:33-39 | a new `mbe` object holds the catalogue, its reverse map and no follow lists |
| Mbe.Ecu.AddVariableToFollow | mbe.py:91-143 | the method's outcome and new follow state are those of the specification `AddSpec`, and the follow-list invariant is kept |
| Mbe.AddRefusals | mbe.py:93-126 | the result is False and nothing changes exactly for a None or non-string name, a name missing from the catalogue, or a low byte already on the page |
| Mbe.AddSpecRaises | mbe.py:128-129 | a follow entry or new low byte that int(lsb, 16) cannot read raises ValueError at the comparison that reaches it |
| Mbe.AddSpecInserts | mbe.py:120-135 | once the position loop has stopped at p, the entry is inserted at p |
| Mbe.AddPreservesInvariant | mbe.py:114-140 | every page list stays non-empty and ascending by int(lsb, 16), with no repeated low byte, and holds only catalogue entries of that page |
| Mbe.AddInsertsOneEntry | mbe.py:114-143 | a successful add inserts exactly one {name, bytes, lsb, frequency} entry into its page's list, after every entry whose low byte is not greater and before every greater one, creating the list if absent |
| Mbe.AddAddsToMultiset | mbe.py:134-140 | the page's entries after an add are the old ones plus the new one; none is lost |
| Mbe.AddTouchesOnlyItsPage | mbe.py:114-118 | every other page's list is unchanged; a new page is appended to the page order |
| Mbe.InsertOrdered | mbe.py:120-135 | inserting at the position the loop finds keeps a list ordered |
| Mbe.CanonicalListsStrictlyAscend | mbe.py:120-140 | with low bytes written as two lower-case hex digits, every page list is strictly ascending |
| Mbe.PageNamesDistinct | mbe.py:120-140 | the entries of one page list have distinct names |
| Mbe.Ecu.AddVariableListToFollow | mbe.py:146-152 | the method is the list specification: each name is tried in input order and the invariant is kept |
| Mbe.AddListCountsEveryName | mbe.py:146-152 | the returned count is the number of names tried, whatever each outcome, because the tested tuple is always truthy |
| Mbe.AddListUnknownNameStillCounted | mbe.py:149 | one resolvable and one unknown name return 2, and only the resolvable name is followed |
| Mbe.Ecu.CreateDataRequest | mbe.py:154-163 | the nested loops compute `RequestBytes` of the page name and list |
| Mbe.RequestLayout | mbe.py:154-163 | the request is 01 00 00 00 00, the page byte, then each entry's offsets lsb..lsb+bytes−1 in list order: 6 + Σbytes bytes |
| Mbe.WireOffsetsNoneAt | mbe.py:158 | a list with a low byte int() cannot read has no request (ValueError) |
| Mbe.HexTextBytes | mbe.py:160-163 | offsets below 256 written as '{:02x}' unhexlify back to themselves |
| Mbe.RequestSample | mbe.py:13 | page 0x12 with entries (66, 2) and (a8, 2) gives the sample request 0100000000126667a8a9 |
| Mbe.RequestSampleText | mbe.py:13 | the same sample as text before unhexlify |
| Mbe.Ecu.ProcessDataResponse | mbe.py:165-196 | the loops compute `DecodePage`: each variable's bytes prepended into a bytearray read big-endian, then rescaled |
| Mbe.DecodePageVerdicts | mbe.py:168-174 | None exactly for a reply shorter than 2 bytes or not starting 0x81 |
| Mbe.DecodeAllFails | mbe.py:178-194 | the decode raises exactly when some variable's field fails: IndexError for a short reply, KeyError for an unknown name, ZeroDivisionError for a zero width |
| Mbe.DecodeAllResults | mbe.py:178-194 | a successful decode holds one result per followed name, and nothing else |
| Mbe.DecodePageValues | mbe.py:175-194 | every variable is read from response[1 .. 1+bytes), because the cursor is never advanced |
| Mbe.DecodeEntryValue | mbe.py:183-191 | a variable's value is the little-endian reading of its bytes, rescaled |
| Mbe.BigEndianOfReverse | mbe.py:183-190 | prepending each byte and reading big-endian is reading the bytes little-endian |
| Mbe.CannedReplyDecodes | mbe.py:211 | the canned reply 81 34 12 gives a two-byte variable scaled 0..65535 the value 0x1234 = 4660 |
| Mbe.DecodedWithinLimits | mbe.py:188-191 | every decoded value lies between scale_minimum and scale_maximum when minimum ≤ maximum |
| Mbe.Ecu.ProcessAllPages | mbe.py:198-225 | False for a non-dict; otherwise every followed page is requested, decoded and merged into the caller's dict in page order, or the first fault is raised |
| Mbe.MergeInto | mbe.py:217-222 | the merge loop leaves the results equal to `Merge` of the old results and the page's results |
| Mbe.MergeStep | mbe.py:219-222 | one assignment: a present name gets only its value replaced, a new name gets the full record |
| Mbe.PollKeepsMetadata | mbe.py:217-222 | a poll never changes the name, short description or units of a name already in the results |
| Mbe.PollRecordsEveryVariable | mbe.py:202-222 | after a poll that completes, every followed variable of every page is a key of the caller's results, holding the value decoded from the reply for it (no other page follows the same name, so no later merge replaces it) |
| Util.UnhexlifyHexlify | mbe.py:163 | `binascii.unhexlify` inverts `hexlify` |
| Util.HexlifyUnhexlify | mbe.py:160-163 | lower-case hex text of even length, as the request builder writes it, unhexlifies to bytes whose hexlify gives the text back |
| Util.HexValueAppend | tools/correlator.py:40-41 | in a concatenation of hex digit strings, the left part is the more significant |
| Util.Hex02OfValue | mbe.py:160 | two lower-case hex digits are the '{:02x}' text of their value |
| Util.Split | tools/ec2parse.py:191 | str.split: at least one piece, no piece contains the separator, and the pieces joined by it give back the text |
| Util.SplitLength | tools/ec2parse.py:191 | the number of pieces is one more than the number of separators |
| Util.StripTrims | tools/ec2parse.py:130 | str.strip(chars) removes characters of the set from the two ends and nothing else |
| Util.Lower | tools/ec2parse.py:35 | str.lower changes each ASCII capital to its small letter and keeps the length |
| Pcap.ProcessDataRequestCommand | tools/mbepcap2txt.py:52-76 | the while loop computes `RequestSpec`: None under 12 characters, else the walk from character 12 with the page from characters 10-11; a zero width, which would spin for ever, is reported as such |
| Pcap.WalkAdvance | tools/mbepcap2txt.py:63-74 | one pass of the loop: a mapped low byte appends its (name, bytes) and skips bytes·2 characters, an unmapped one appends UNKNOWN of width 1 and skips 2 |
| Pcap.WalkEntries | tools/mbepcap2txt.py:63-74 | walking the offsets of a follow list whose entries are in the map yields their (name, bytes) records in list order |
| Pcap.RequestHex | mbe.py:154-163 | the hex text of a built request is the header, the page's two digits, then the offsets' text |
| Pcap.RequestRoundTrip | tools/mbepcap2txt.py:52-76 | round trip with `create_data_request`: the hex of the request it builds walks back to the follow list's (name, bytes) records in order |
| Pcap.ProcessDataResponse | tools/mbepcap2txt.py:78-119 | the loop computes `ResponseSpec`: nothing under 4 characters, TypeError for a missing request, otherwise the commands decoded from character 2, stopping at the first fault |
| Pcap.ReadField | tools/mbepcap2txt.py:97-99 | the prepending loop yields the field's pairs in reverse order |
| Pcap.ProcessCommand | tools/mbepcap2txt.py:89-118 | one command: KeyError for a name missing from the catalogue, ValueError for a field that is not hex, ZeroDivisionError for a zero width, otherwise the scaled (or, for UNKNOWN, raw) line |
| Pcap.DecodeCommandsStops | tools/mbepcap2txt.py:86-119 | a failing command ends the log with its fault |
| Pcap.DecodeCommandsAdvances | tools/mbepcap2txt.py:86-107 | a decoded command adds its line and moves the cursor by bytes·2 |
| Pcap.CollectLength | tools/mbepcap2txt.py:86-119 | the log has a line for every command exactly when no command failed |
| Pcap.CollectCursor | tools/mbepcap2txt.py:86-107 | the k-th command is read at 2 + 2·(sum of the earlier widths): each command consumes exactly bytes·2 characters |
| Pcap.CollectFault | tools/mbepcap2txt.py:86-119 | a fault is the failure of the first command without a line, at its cursor |
| Pcap.FieldHexLittleEndian | tools/mbepcap2txt.py:97-113 | the value read is the little-endian reading of the bytes the field covers: the first received byte is least significant |
| Pcap.MarkerIgnored | tools/mbepcap2txt.py:80-83 | the 81 marker is never checked: responses that agree from character 2 on decode alike |
| Pcap.HandlePacket | tools/mbepcap2txt.py:151-227 | the loop body computes `Step`: the CAN/ISO-TP and id filters, the displayed line, and the request/response processing |
| Pcap.RunFromStep | tools/mbepcap2txt.py:151-227 | one packet of the run: a fault stops it, otherwise the run goes on with the new pending request |
| Pcap.DecodeCapture | tools/mbepcap2txt.py:144-229 | the packet loop computes `RunFrom` over all packets with the reverse map of the catalogue |
| Pcap.StepPending | tools/mbepcap2txt.py:211-217 | the pending request changes exactly on a data request |
| Pcap.PendingIsLatestRequest | tools/mbepcap2txt.py:211-225 | a response is decoded against the most recent data request; before any, the pending request is unbound |
| Pcap.ResponseBeforeRequest | tools/mbepcap2txt.py:220-225 | a data response before any data request stops the loop with NameError |
| Pcap.DisplayGuards | tools/mbepcap2ble.py:190-214 | with --isotp, mbepcap2txt prints a line for every packet that reaches the display, because its `fragment_count != None` test always holds; mbepcap2ble prints one exactly when --can is given or the frame is single or completes a message |
| Pcap.KindsAgreeOnMatchingIds | tools/mbepcap2ble.py:191-206 | the two tools give the same label to 01/04 frames on the query id and 81/e4 frames on the response id; an 81 frame on the query id is RESPONSE in mbepcap2txt but UNKNOWN_MBE_MESSAGE in mbepcap2ble |
| Ec2Parse.EndMarkerReadsBack | tools/ec2parse.py:72-75 | a line "[end" + whitespace + X + "]" registers X |
| Ec2Parse.HeaderReadsBack | tools/ec2parse.py:123-126 | a line "[" + X + "]" opens record X |
| Ec2Parse.KeyValueReadsBack | tools/ec2parse.py:128-131 | a line key + " = " + value, with the key of [\w\s] and the value of the value class, reads back as exactly that key and value |
| Ec2Parse.EndPassRegisters | tools/ec2parse.py:72-75 | X is registered exactly when some line ends it; its end is the last such line, and no start is set yet |
| Ec2Parse.StartPassRecords | tools/ec2parse.py:78-81 | the names and ends are kept; a "[X]" line records a start only for a registered X, the last one wins, and there is no start exactly when no line opens X |
| Ec2Parse.FindSections | tools/ec2parse.py:70-81 | the two loops compute `SectionsOf` |
| Ec2Parse.ReadRecords | tools/ec2parse.py:121-182 | the record loop of either section computes `RecordsFrom`, starting with no records and current name '' |
| Ec2Parse.ReadLine | tools/ec2parse.py:122-133 | the loop body for one line computes `RecordStep`: a header, a Key = Value line with its two KeyErrors, or no change |
| Ec2Parse.RecordLineEffect | tools/ec2parse.py:121-133 | a header opens a fresh record and makes it current; a Key = Value line sets one translated field of the current record only, or raises KeyError for a missing current record and then for an unknown key; other lines change nothing |
| Ec2Parse.ValueBeforeHeader | tools/ec2parse.py:96 | a Key = Value line before the first header raises KeyError('') |
| Ec2Parse.NameNotAField | tools/ec2parse.py:97-169 | neither translation table produces the field 'name' |
| Ec2Parse.RecordStepInvariant | tools/ec2parse.py:121-182 | one line keeps the table well formed, every field known, and every definitions record named after its key |
| Ec2Parse.RecordsInvariant | tools/ec2parse.py:121-182 | the same for the whole loop |
| Ec2Parse.ScalesUnnamed | tools/ec2parse.py:170-182 | numeric scale records carry no 'name' field |
| Ec2Parse.ReadPrototypes | tools/ec2parse.py:190-216 | the prototype loop computes `PrototypesFrom` |
| Ec2Parse.PrototypeFieldCount | tools/ec2parse.py:191-216 | one field: the line is ignored; two or three: the script exits; four or more: it succeeds exactly when field 0 names a variable |
| Ec2Parse.PrototypesOnlyDescribe | tools/ec2parse.py:190-216 | prototypes add no variable, keep every other field with its value, and add no field but short_desc, long_desc and disabled |
| Ec2Parse.ExportVariables | tools/ec2parse.py:219-261 | the export loop computes `ExportFrom` |
| Ec2Parse.ExportStep | tools/ec2parse.py:221-261 | a kept variable puts its row in front of the rest; any other is passed over |
| Ec2Parse.ExportSelects | tools/ec2parse.py:219-261 | the export holds, in file order, exactly the variables whose scale0 starts with SCALE and, for json and py, whose lower-cased disabled is not "disabled" |
| Ec2Parse.ExportRowFields | tools/ec2parse.py:225-258 | page and address are "0x" + the lower-cased text; name, bytes, short and long descriptions are copied from the variable; scale_minimum, scale_maximum, display_minimum, display_maximum, display_interval and units from its scale0 record; only csv has a disabled column |
| Ec2Parse.ExportNamesDistinct | tools/ec2parse.py:243-258 | the exported names are distinct, so no output_dict entry is overwritten |
| Ec2Parse.Parse | tools/ec2parse.py:70-216 | every variable that comes out of the parse carries its own name under 'name' |
| Ec2Parse.ParseLines | tools/ec2parse.py:70-216 | the section and record loops compute `Parse` |
| Ec2Parse.BadExtensionFirst | tools/ec2parse.py:34-40 | an extension other than csv, json or py exits before any input is read |
| Ec2Parse.ExportedNamesDistinct | tools/ec2parse.py:241-261 | the rows written have distinct names |
| Ec2Parse.Ec2Parse | tools/ec2parse.py:34-277 | the script computes `Ec2Spec`, including IndexError for a csv export of fewer than two rows |
| Correlator.RunCorrelator | tools/correlator.py:23-50 | the row and shift loops compute `Correlate` |
| Correlator.Window | tools/correlator.py:46-47 | (data >> x) & 0xffff is below 2^16 |
| Correlator.HighestMatch | tools/correlator.py:45-50 | the shift found is the highest one, from 48 down, whose window equals the value; None when no window does |
| Correlator.BadDwordFirst | tools/correlator.py:23-29 | a --dword that is not hex exits before any row is read |
| Correlator.SearchFindsFirst | tools/correlator.py:36-50 | a hit comes from the first row where the value occurs, at its highest shift there; every earlier row was read and passed over |
| Correlator.SearchFindsNothing | tools/correlator.py:36-50 | the search ends without a hit exactly when every row is passed over |
| Correlator.WideValueNeverFound | tools/correlator.py:23-47 | a value above 0xffff is never found |
| Correlator.TopWindowIsFirstTwoBytes | tools/correlator.py:40-47 | with tokens 4..11 two-digit bytes, token 4 is most significant: the window at shift 48 is tokens 4 and 5 |

## Left out

- File I/O, `argparse`, `logging`, `print`, `pprint`, `json.load`/`json.dumps` and the `csv` reader and writer: inputs are values and outputs are returned.
- `load_mbe_variables_from_json` and `load_mbe_variables`: the catalogue is a `Catalog` value. The JSON holds `bytes` and the two scale limits as text; the model holds them as the numbers that text denotes (`nat` and `real`). So the model does not capture:
  - the `ValueError` that `int(...)` and `float(...)` raise on malformed text (mbe.py:181,188-191; tools/mbepcap2txt.py:74,96,111-114);
  - a negative width, which would move the cursor of `tools/mbepcap2txt.py` backwards;
  - values in the caller's results dict that are not records: `ResultTable.entries` holds only `DecodedValue`s, while `process_all_pages`'s bare `except` would replace such a value wholesale.
- `log_variables`, `log_pages` and `bind`: debug output and a transport stub.
- The ISO-TP socket: `process_all_pages` takes the reply the socket would return as a parameter.
- pyshark: a capture is a sequence of `Packet` values.
  - Whether each packet has a CAN and an ISO-TP layer is a field.
  - So is the message type, which the code parses with `int(message_type[2:])`.
- The BLE/UART code in the string literal at the end of `tools/mbepcap2ble.py`: it is never executed.
- `UniHatRevs.py` and `TestECU.py`: display and terminal front ends.
  - They call `mbe` methods that do not exist.
  - `UniHatRevs.py` polls forever with `sleep`.
- Floating point: values are exact reals, and the `:.5`/`:.3` formatting of logged values is not modelled.
- `int(s, 16)`: modelled as "non-empty, all hex digits".
  - Python also accepts a sign, surrounding whitespace and underscores.
  - Python also accepts a `0x` prefix; the model accepts that prefix for the correlator's `--dword`.
- `\w`, `\s` and `str.lower` act on ASCII only; Python's act on all of Unicode.
- `mbe.add_variable_to_follow`'s `isinstance(name, str)` test: names are `PyNone`, `PyStr` or `PyOther`.
- Pcap.ProcessDataRequestCommand: a zero-width entry makes the Python loop spin for ever; the model returns `Hangs` and the packet loop stops with `NeverEnds`.
- Ec2Parse.Ec2Parse: csv quoting and the json/pprint text are not modelled; the output is the rows in order.
- tools/correlator.py: its `--id` option is not implemented by the script, and the found row is printed, not returned.
- The missing-argument checks of `tools/ec2parse.py` and `tools/correlator.py` are left out, as `argparse` glue.

Behaviours of the code that the model keeps as they are:

- `add_variable_list_to_follow` returns `len(name_list)`, whether or not each addition succeeded.
- `mbe.process_data_response` never advances its cursor, and a short reply raises `IndexError`.
- Unknown EC2 keys, a missing section and a missing scale raise `KeyError`.
- A repeated (page, low byte) in the catalogue overwrites the earlier entry in the reverse map.
