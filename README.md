# PGN 128006 group-function handlers

A model of the two NMEA 2000 group-function handlers that the THR100 thruster
firmware provides for PGN 128006, Thruster Control Status. A group function
(PGN 126208) lets a remote node command new values for single fields of a
PGN, or request the PGN, and is answered with an acknowledgment that carries
one parameter code per (field-index, value) pair.

- `HandleCommand` walks the declared number of pairs with a byte cursor. It
  decodes each value by the rule of its field index and stages it in a
  ten-slot `fields` array with dirty flags. It appends one code per pair to
  the acknowledgment, sends the acknowledgment, and calls `updateFunction`
  with the staged array unless some value was out of range.
- `HandleRequest` checks the requested field indices against the supported
  indices 2..9. Once an index is unsupported, every later acknowledged pair
  is refused as "temporarily unable to comply". For a request addressed to
  this device alone, the acknowledgment stops right after that index; for a
  broadcast request it holds a code for every pair. The acknowledgment is
  built, addressed to the requester, and never sent.

Files:

- `n2k.dfy` (module `N2k`): bytes, the acknowledgment codes and envelope,
  and the message byte cursor.
- `field_codec.dfy` (module `FieldCodec`): the per-index decode rules and
  the enumerations of fields 3, 4 and 5, with their wire values.
- `command.dfy` (module `CommandHandler`): `HandleCommand` as a method.
  It loops over the pairs with a local ten-slot array. It is proved against
  reference functions for the pairs the cursor meets (`Trace`) and the array
  they leave behind (`StagingArray`).
- `request.dfy` (module `RequestHandler`): `HandleRequest` as a method with
  its loop. It is proved against a closed-form reference (`RequestCodes`).

The model's input is the payload bytes from the first parameter pair on, so
the cursor starts at 0. The byte reader follows the NMEA2000 library's
`tN2kMsg` accessors, which are not part of this model:

- Reading past the end yields the "not available" value (0xFF for a byte,
  0x7FFF for a 16-bit value) and leaves the cursor where it is.
- The two bytes of a 16-bit value are little-endian.

Quirks of the code that the model keeps, with contracts stating them:

- The command's priority test `p != 0x08 || p != 0x0f || p != 0x09` is always
  true, so the command acknowledgment always reports the transmission
  interval or priority as not supported.
- An unknown field index in a command is answered InvalidField. It stages
  nothing, reads no value byte and leaves the apply gate open. The byte meant
  as its value is therefore read as the next pair's index.
- Field 4's `default` branch cannot be reached: every two-bit value names a
  status.
- The request handler reads one byte per pair, the index, and never skips
  the value, so a pair's value is judged as the next pair's index
  (`RequestHandler.ValueByteReadAsIndex`).
- The request handler builds its acknowledgment but never sends it; the
  command handler sends its acknowledgment every time.

A stricter apply gate, closed by any failing pair, would also block on
InvalidField. The code clears `canUpdate` only on an out-of-range value
(lines 124, 133 and 141), and the model follows the code. The priority test
at line 98 names 0x08, 0x0F and 0x09, evidently as the accepted settings;
the model keeps its tautology.

## Model

| member | source | states |
|---|---|---|
| `N2k.Int16RoundTrip` | THR100/firmware/1.0.0/GroupFunctionHandlers.cpp:153-155 | the two little-endian bytes written for any signed 16-bit value read back as that value, with the cursor two bytes on |
| `FieldCodec.DecodeValue` | THR100/firmware/1.0.0/GroupFunctionHandlers.cpp:113-158 | InvalidField exactly for indices outside 2..9, which consume nothing; a known index takes its value's width (two bytes for field 9, one otherwise) and never more; a staged value belongs to the slot of its index; only fields 3 and 5 can be out of range |
| `FieldCodec.Field3Rule` | THR100/firmware/1.0.0/GroupFunctionHandlers.cpp:118-125 | field 3 stages a value iff the low nibble is 0..3, and then the direction whose wire value is that nibble; every other nibble is ParameterOutOfRange |
| `FieldCodec.Field4Rule` | THR100/firmware/1.0.0/GroupFunctionHandlers.cpp:127-134 | field 4 always stages the status whose wire value is the low two bits; it never produces an error |
| `FieldCodec.Field5Rule` | THR100/firmware/1.0.0/GroupFunctionHandlers.cpp:136-142 | field 5 stages a value iff the low two bits are not 3, and then the retract command with that wire value; 3 is ParameterOutOfRange |
| `FieldCodec.RawByteFieldsRule` | THR100/firmware/1.0.0/GroupFunctionHandlers.cpp:114-117 | fields 2, 6, 7 and 8 stage the raw byte they read, whatever its value, consuming one byte |
| `FieldCodec.Field9RoundTrip` | THR100/firmware/1.0.0/GroupFunctionHandlers.cpp:153-155 | field 9 stages the signed 16-bit value its two bytes encode and consumes both |
| `FieldCodec.DirectionRoundTrip` | THR100/firmware/1.0.0/GroupFunctionHandlers.cpp:119-123 | every thruster direction, written as its wire value, decodes back to itself as field 3 |
| `FieldCodec.StatusRoundTrip` | THR100/firmware/1.0.0/GroupFunctionHandlers.cpp:128-132 | every on/off/error/unavailable status, written as its wire value, decodes back to itself as field 4 |
| `FieldCodec.RetractRoundTrip` | THR100/firmware/1.0.0/GroupFunctionHandlers.cpp:137-140 | every retract command, written as its wire value, decodes back to itself as field 5 |
| `CommandHandler.DecodePair` | THR100/firmware/1.0.0/GroupFunctionHandlers.cpp:111-158 | one pair: a staged value has a supported index; an unknown index advances the cursor by its own byte only; a known index by one plus its value's width; past the end of the payload the pair is an InvalidField and the cursor stays |
| `CommandHandler.Trace` | THR100/firmware/1.0.0/GroupFunctionHandlers.cpp:109-111 | the pairs the cursor walks: exactly the declared number, each staging only under a supported index |
| `CommandHandler.CommandPriorityErrorCode` | THR100/firmware/1.0.0/GroupFunctionHandlers.cpp:92-98 | the priority test accepts no setting: the transmission/priority code is always "not supported", whatever the priority |
| `CommandHandler.HandleCommand` | THR100/firmware/1.0.0/GroupFunctionHandlers.cpp:88-166 | returns true; the acknowledgment is sent, to the sender, with PGN 128006, the "not supported" priority code and exactly one code per declared pair in pair order; the update callback gets the staging array iff no code is ParameterOutOfRange, and in it a slot is dirty iff some pair decoded a value for it |
| `CommandHandler.TracePrefix` | THR100/firmware/1.0.0/GroupFunctionHandlers.cpp:110-111 | the first m of n pairs are the pairs of an m-pair command: later pairs never change earlier ones |
| `CommandHandler.StagedSlot` | THR100/firmware/1.0.0/GroupFunctionHandlers.cpp:95-96 | a slot is dirty iff some pair decoded a value for its index, it then holds the value of the last such pair (later successes overwrite), and otherwise it keeps its initial not-dirty zero value |
| `CommandHandler.ExhaustedPayload` | THR100/firmware/1.0.0/GroupFunctionHandlers.cpp:156-157 | once the cursor is past the end of the payload, every further pair is an InvalidField that stages nothing and leaves the cursor in place |
| `CommandHandler.InvalidIndexShiftsCursor` | THR100/firmware/1.0.0/GroupFunctionHandlers.cpp:156-163 | the bytes 0, 3, 2 read as two pairs give InvalidField then field 3 = ThrusterToPort: the unknown index's value byte becomes the next index, and the valid pair is still staged |
| `CommandHandler.OutOfRangeClosesGate` | THR100/firmware/1.0.0/GroupFunctionHandlers.cpp:118-125 | an identifier followed by direction nibble 4 gives Acknowledge then ParameterOutOfRange, so the apply gate is closed; the identifier is staged, the direction slot is left untouched |
| `RequestHandler.FirstUnsupported` | THR100/firmware/1.0.0/GroupFunctionHandlers.cpp:54-79 | the position of the first requested index outside 2..9: every index before it is supported, and it is unsupported unless it is past the pairs |
| `RequestHandler.HandleRequest` | THR100/firmware/1.0.0/GroupFunctionHandlers.cpp:29-86 | the acknowledgment is built, addressed to the requester with the given transmission code and declared pair count, and never sent; code i is Acknowledge for a supported index, InvalidField for the first unsupported one, TemporarilyUnableToComply after it; every pair is answered when broadcast, and a unicast request stops only right after an InvalidField and never defers a pair |
| `RequestHandler.StickyFailure` | THR100/firmware/1.0.0/GroupFunctionHandlers.cpp:55-82 | after a pair answered InvalidField, every later answered pair is TemporarilyUnableToComply |
| `RequestHandler.UnicastStopsAtFirstInvalid` | THR100/firmware/1.0.0/GroupFunctionHandlers.cpp:54-78 | with the first unsupported index at k, a unicast request gets codes for pairs 0..k only, the last being InvalidField, and a broadcast request gets all n; the unicast codes are a prefix of the broadcast ones |
| `RequestHandler.AllSupportedAllAcknowledged` | THR100/firmware/1.0.0/GroupFunctionHandlers.cpp:54-73 | a request naming only supported indices is answered Acknowledge for every pair, unicast or broadcast |
| `RequestHandler.DeferredAfterInvalid` | THR100/firmware/1.0.0/GroupFunctionHandlers.cpp:54-84 | indices 2, 99, 3 give Acknowledge, InvalidField, TemporarilyUnableToComply when broadcast, and Acknowledge, InvalidField when unicast |
| `RequestHandler.ValueByteReadAsIndex` | THR100/firmware/1.0.0/GroupFunctionHandlers.cpp:54-58 | the pairs (2, 100) and (3, 0), broadcast, are answered Acknowledge then InvalidField: the first pair's value byte is read as the second index |
| `RequestHandler.AsWrittenDiffersOnSupportedIndices` | THR100/firmware/1.0.0/GroupFunctionHandlers.cpp:50-83 | as written, a pair's code differs from the intended one exactly when the index is supported, no earlier index was unsupported, and the uninitialised code is not Acknowledge |
| `RequestHandler.UninitialisedCodeOnSupportedIndex` | THR100/firmware/1.0.0/GroupFunctionHandlers.cpp:50-59 | a request for index 2 alone should be answered Acknowledge, but as written it is answered with whatever the uninitialised code holds |

## Findings

| source | as written | input that shows it | evidently intended | confidence | as-written member | corrected member |
|---|---|---|---|---|---|---|
| THR100/firmware/1.0.0/GroupFunctionHandlers.cpp:50-83 | `FieldErrorCode` is declared without a value and assigned only for an unsupported index or after one, so a supported index is acknowledged with an indeterminate code | a unicast request naming field 2 only | Acknowledge for every supported index before the first unsupported one | not executed; high | `RequestHandler.AsWrittenCode` (see `RequestHandler.UninitialisedCodeOnSupportedIndex`) | `RequestHandler.HandleRequest` |

## Left out

- Transmission (`pNMEA2000->SendMsg`) is not modelled: the handlers return the acknowledgment instead.
- HandleCommand: the order of sending the acknowledgment before calling `updateFunction` is not stated; the model returns both.
- `updateFunction` is a callback on shared device state. The model returns the staged array it would receive, or None when it is not called.
- `GetRequestGroupFunctionTransmissionOrPriorityErrorCode` and `tNMEA2000::IsBroadcast` are calls into the library. Their results are parameters (`pec`, `isBroadcast`).
- The NMEA2000 library's `tN2kMsg` accessors, `SetStartAcknowledge`, `AddAcknowledgeParameter` and `StartParse*PairParameters` are not part of this model:
  - The header bytes before the pairs are not parsed.
  - The acknowledgment codes are a sequence, not nibbles packed into bytes.
  - The reader's behaviour at the end of the payload is the library's, stated above.
- Fields 8 and 9 keep their raw values. The floating-point scaling by 0.005 and 0.0001 is not modelled, and neither is the library's mapping of the not-available raw value to a "not available" double.
- Field 7 keeps its raw byte, not the library's event-bitmask type (`SetEvents`).
- HandleRequest has no `return` statement, so its `bool` result is undefined and is not modelled. The model returns the acknowledgment it builds, with `sent` false.
- The request path reads the handler's `PGN` member, which is set outside this file; the model uses 128006.
- The uninitialised `FieldErrorCode` may hold a value outside the four codes. The as-written model draws it from the four.
- The `N2K_NO_GROUP_FUNCTION_SUPPORT` preprocessor guard and the includes are not modelled.
