# CreateEvent decoder and copy-trade log filter

This project models, in Dafny, the part of `listen.py` that turns a Solana
`logsNotification` into a decision:

- **`parse_create_instruction`**: the Pump.fun CreateEvent payload decoder.
  - It rejects payloads under 8 bytes and otherwise skips an 8-byte header without looking at it.
  - It then reads nine fields with one running offset: three strings (a u32 little-endian count, then that many UTF-8 bytes) and six 32-byte public keys rendered as base58 text.
  - Python slices clip, so a string whose declared length, or a key, runs past the end is cut short, not rejected; a 4-byte count prefix cut short is rejected.
  - Only a short count prefix (`struct.error`) or invalid UTF-8 (`UnicodeDecodeError`) gives `None`.
- **the per-message and per-log steps of `listen_for_copy`**:
  - It selects `logsNotification` messages whose logs mention `Program log: Instruction: Buy`.
  - For every log holding `Program data:` it takes `log.split(": ")[1]`, base64-decodes it, decodes it as a CreateEvent, and tests the record against the watched address.
  - Every failure inside one log is caught, and the handler moves on to the next log.

The decoder is a `for` loop that updates an offset and a dictionary. It is
modelled as `CreateEvent.ParseCreateInstruction`, a method with that loop.
The method is proved equal to the recursive function `CreateEvent.ParseCreate`,
and the laws are proved about that function. The log handling is the methods
`LogFilter.ScanForBuy`, `LogFilter.ProcessLogs` and `LogFilter.ProcessMessage`.
They are proved equal to the functions `LogFilter.MentionsBuy`,
`LogFilter.HandleLog` and `LogFilter.HandleMessage`.

Two facts about the filter are proved:

- The decoder stores the keys `"associatedBondingCurve "` and `"associatedUser "` with a trailing space. The filter looks up `"associatedBondingCurve"` without one. So, when the watched address converts to a `Pubkey` (listen.py:131), every payload that decodes ends in a `KeyError`, which the per-log handler catches (`LogFilter.CreateEventRaisesKeyError`). When the conversion raises instead, every data log that gets that far ends in the caught error of the conversion (`LogFilter.AddressFailedFirst`).
- Even with the key spelled alike, the filter compares a `str` with a `Pubkey`. solders' `Pubkey` returns `NotImplemented` for a `str`, so Python falls back to identity and `!=` always holds. The filter could therefore never let a record through (`LogFilter.FilterOnPubkey`).

As a result, the copy-trade branch after the filter (listen.py:140-146) is unreachable (`LogFilter.NeverPastFilter`).

Other behaviour of the code that the model keeps as written:

- No discriminator is checked: the first 8 bytes are skipped unread.
- Overruns are clipped, not rejected: a declared length or a key past the end reads a shorter slice, and the offset still moves by the full amount.
- The encoded text is element `[1]` of `split(": ")`. That is the text between the first separator and the second (or the end), not everything after the first.
- The filter tests the decoded record's own fields against the watched address, not the accounts the instruction references. It compares a decoded `str` with a `Pubkey`, not bytes with bytes.
- An error in a message's value lookup ends the receive loop (`break`); it is not skipped.

Modules:
- `Wrappers`: `Option`.
- `Bytes`: bytes, Python's clipping slice, and u32 little-endian.
- `Utf8`: the strict UTF-8 decoder of RFC 3629 section 4, with its encoder and both round trips.
- `Text`: `in` and `str.split`.
- `CreateEvent`: the decoder.
- `CreateEventLaws`: the decoder's round trip, header independence, failure cases and clipping.
- `LogFilter`: the notification and log handling.

## Model

| member | source | states |
|---|---|---|
| Bytes.Slice | listen.py:66-71 | Python's `data[lo:hi]` clips to the input: its length is `min(hi, len) - lo` (0 when past the end), element `i` is `data[lo + i]`, and it is the ordinary slice when `hi` is within bounds |
| Bytes.U32LE | listen.py:66 | `struct.unpack('<I', b)` of exactly four bytes is a value below 2^32 |
| Bytes.U32LERoundTrip | listen.py:66 | every value below 2^32 written as four little-endian bytes reads back as itself |
| Bytes.U32LEBytesRoundTrip | listen.py:66 | every four bytes read as a u32 and written back give the same bytes |
| Utf8.CharLengthGrammar | listen.py:68 | a character's length is 0 exactly when the input is empty or does not start with a well-formed UTF-8 sequence |
| Utf8.DecodeValid | listen.py:68 | `bytes.decode('utf-8')` succeeds exactly on the byte strings that are well-formed UTF-8 |
| Utf8.Decode | listen.py:68 | a successful decode has no more characters than bytes |
| Utf8.Encode | listen.py:68 | a text of n characters encodes to between n and 4n bytes |
| Utf8.DecodeEncode | listen.py:68 | decoding the UTF-8 encoding of any text gives that text back |
| Utf8.EncodeDecode | listen.py:68 | encoding the text of any well-formed UTF-8 byte string gives those bytes back |
| Text.Find | listen.py:122-124 | the result is the first occurrence at or after `from`, and `None` means there is none |
| Text.ContainsIffOccurs | listen.py:120-122 | `sub in s` holds exactly when `sub` occurs somewhere in `s` |
| Text.Contains | listen.py:120-122 | Python's `sub in s`; `Text.ContainsIffOccurs` proves it holds exactly when `sub` occurs at some index |
| Text.Split | listen.py:124 | `s.split(sep)` always has at least one piece; `Text.JoinSplit`, `Text.SplitPiecesFree`, `Text.SplitHasSecondPiece` and `Text.SecondPiece` state what the pieces are |
| Text.JoinSplit | listen.py:124 | joining the pieces of `s.split(sep)` with `sep` gives `s` back |
| Text.SplitPiecesFree | listen.py:124 | no piece of `s.split(sep)` contains `sep` |
| Text.SplitHasSecondPiece | listen.py:124 | `s.split(sep)` has an element `[1]` exactly when `sep` occurs in `s` |
| Text.FirstPiece | listen.py:124 | `s.split(sep)[0]` is the text before the first `sep`, or all of `s` when there is none |
| Text.SecondPiece | listen.py:124 | `s.split(sep)[1]` is the text between the first `sep` and the next one, or the end of `s` |
| CreateEvent.ReadField | listen.py:65-72 | a key field never fails, reads the clipped 32 bytes at the offset and moves on 32; a string field moves past at least its 4-byte count; only a string field can fail |
| CreateEvent.ReadFieldFails | listen.py:65-68 | a field read fails exactly when it is a string and either fewer than 4 bytes remain for its count or its clipped bytes are not valid UTF-8 |
| CreateEvent.ParseFieldsFrom | listen.py:64-76 | a finished field loop holds the keys it started with plus the names of every remaining field; its one-step unfoldings, `CreateEvent.FieldFails` (a read that raises gives `None`, no partial record) and `CreateEvent.FieldSucceeds` (a read that succeeds stores its value and moves on), are proof helpers |
| CreateEvent.ParseCreate | listen.py:44-78 | inputs under 8 bytes give `None`; a record holds exactly the nine keys as spelled in the source, trailing spaces included |
| CreateEvent.ParseCreateInstruction | listen.py:44-78 | the loop with its running offset and dictionary returns exactly what `ParseCreate` describes |
| CreateEventLaws.ReadStringField | listen.py:66-69 | a string field decodes its (clipped) bytes and the offset moves on by 4 plus the declared count, even when the bytes were cut short |
| CreateEventLaws.KeysRead | listen.py:70-74 | the six key fields from any offset always succeed, each storing the base58 text of its clipped 32-byte slice, 32 bytes apart |
| CreateEventLaws.ParseStrings | listen.py:64-76 | three decodable strings at the offsets the counts give make the decode succeed with those texts and the six keys read from where the strings end, whatever bytes follow |
| CreateEventLaws.RoundTrip | listen.py:47-76 | any 8-byte header, three length-prefixed UTF-8 strings, six 32-byte keys and any trailing bytes decode to exactly those strings and the base58 text of those keys |
| CreateEventLaws.HeaderIgnored | listen.py:47 | two payloads that differ only in their first 8 bytes decode alike |
| CreateEventLaws.FieldsAfterHeader | listen.py:64-73 | started at or after offset 8, the field loop gives the same result on two payloads that agree from byte 8 on: it never reads bytes 0-7 |
| CreateEventLaws.ShortCountFails | listen.py:66 | a payload that ends inside the name's 4-byte count gives `None` |
| CreateEventLaws.InvalidNameFails | listen.py:68 | a name whose bytes are not valid UTF-8 gives `None` |
| CreateEventLaws.NameOverrunFails | listen.py:66-69 | a name whose declared count leaves no 4 bytes for the symbol's count gives `None`: the read of the symbol's count fails |
| CreateEventLaws.UriOverrunClipped | listen.py:68-72 | a uri whose declared count runs past the end is cut short instead of rejected, and the six keys then read empty slices |
| CreateEventLaws.KeysPastEnd | listen.py:70-72 | key fields that lie past the end of the input render the empty byte string instead of failing |
| LogFilter.EncodedText | listen.py:124 | `log.split(": ")[1]` exists exactly when the log contains `": "`, and is the text between the first `": "` and the next |
| LogFilter.PyNotEqual | listen.py:134-136 | Python's `!=` between a decoded `str` and a `Pubkey` agrees with value inequality: equal kinds compare by value, and a `str` never equals a `Pubkey` |
| LogFilter.FilterFrom | listen.py:134-138 | the `or` of three `!=` tests lets a record through exactly when `associatedBondingCurve`, `user` and `mint` are all present and all equal to the watched address; a `KeyError` names a filter key the record lacks |
| LogFilter.Judge | listen.py:133-138 | the test `parsed_data and 'name' in parsed_data` fails exactly when the decode failed or has no `name`; a record let through is the decoded one |
| LogFilter.HandleLog | listen.py:122-150 | a log is left alone exactly when it lacks `Program data:`, and a data log ends in the caught `IndexError` exactly when it lacks `": "`; `LogFilter.NotCreateEventIff`, `LogFilter.CreateEventRaisesKeyError` and `LogFilter.NeverPastFilter` state the later outcomes |
| LogFilter.MentionsBuy | listen.py:120 | `any("Program log: Instruction: Buy" in log for log in logs)`; `LogFilter.ScanForBuy` is the loop proved equal to it |
| LogFilter.HandleMessage | listen.py:116-154 | a message is ignored exactly when it is not a `logsNotification`; it is a message error (the `break`) exactly when the `params.result.value` path is missing; it is examined exactly when some log mentions a Buy, and then it has one `HandleLog` outcome per log, in order |
| LogFilter.ScanForBuy | listen.py:120 | the scan is true exactly when some log contains `Program log: Instruction: Buy` |
| LogFilter.ProcessLogs | listen.py:121-150 | one outcome per log, in order, each the outcome of handling that log on its own |
| LogFilter.ProcessMessage | listen.py:116-150 | handling a message returns exactly what `HandleMessage` describes |
| LogFilter.AddressFailedFirst | listen.py:125-131 | when `Pubkey.from_string(str(copy_address))` raises, every data log whose text base64-decodes ends in that caught error, whatever its payload |
| LogFilter.NotCreateEventIff | listen.py:128-133 | once base64 and the address conversion succeed, the `parsed_data and 'name' in parsed_data` test fails exactly when the decoder returned `None` |
| LogFilter.FilterOnPubkey | listen.py:134-138 | the filter against a `Pubkey` raises `KeyError` when `associatedBondingCurve` is absent and takes `continue` when it is present: it never lets a record through |
| LogFilter.DecodedRecordRaisesKeyError | listen.py:133-134 | a record with the decoder's nine keys (listen.py:57-58 spells one as `associatedBondingCurve `) passes the `'name'` test and then raises `KeyError` at the `associatedBondingCurve` lookup |
| LogFilter.CreateEventRaisesKeyError | listen.py:124-150 | every data log whose payload decodes as a CreateEvent, with a valid watched address, ends in the caught `KeyError` for `associatedBondingCurve` |
| LogFilter.NeverPastFilter | listen.py:121-150 | no log ever reaches the copy-trade branch or the filter's `continue` |
| LogFilter.ExaminedNeverCopies | listen.py:116-150 | in every examined message, no log's outcome reaches the copy-trade branch or the filter's `continue` |

## Left out

- The websocket session: connect, subscribe, `recv`, the reconnect loop and its 5-second sleep (listen.py:92-115, 152-159). The model starts from a message that `json.loads` has already parsed. A message error is an outcome (`MessageError`), where the code breaks out to an immediate reconnect.
- JSON parsing: a message is given as its `method` field and its `params.result.value` dictionary, or the absence of either. Messages whose `value` or `logs` are not a dictionary or a list of strings are not modelled.
- base64 decoding, base58 encoding and `Pubkey.from_string` are library codecs. They are parameters of the model: functions that return `None` where the library raises.
- The `TextDecoder` parameter of `CreateEvent.ReadField`: the field loop is stated for any decoder, and `CreateEvent.ParseCreate` fixes it to the strict `Utf8.Decode`.
- All `print` calls (output only).
- The copy-trade branch after the filter (listen.py:140-146) is proved unreachable, so it is not modelled further. The same goes for `find_associated_bonding_curve` (listen.py:22-35), a foreign call into solders' program-address derivation.
- `print_transaction_details` (listen.py:80-89): output only.
- `get_transaction_details` (listen.py:161-176): HTTP, with `requests` never imported.
- The `__main__` block: it calls an undefined function.
- IDL loading (listen.py:37-42): file I/O whose result is unused.
- pump.py: orchestration only (file writes, sleeps, RPC, transaction submission, reconnect and ping loops).
- The decoder's bare `except:` also catches exceptions that cannot arise from bytes input, such as `KeyboardInterrupt`. The model has only the two that can: `struct.error` and `UnicodeDecodeError`.
