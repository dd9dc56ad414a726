/**
 * The per-message and per-log steps of `listen_for_copy` in listen.py: pick
 * `logsNotification` messages that mention a Buy instruction, take the
 * base64 text of every "Program data:" log, decode it as a CreateEvent,
 * and test the record against the watched address. Every failure inside
 * one log is caught and the handler moves on to the next log.
 */
module LogFilter {
  import opened Wrappers
  import opened Bytes
  import opened Text
  import CreateEvent

  const NotificationMethod: string := "logsNotification"
  const BuyMarker: string := "Program log: Instruction: Buy"
  const DataMarker: string := "Program data:"
  const Separator: string := ": "

  /**
   * The keys the filter looks up, in the order of its `or`: the first is
   * spelled without the trailing space the decoder gives it.
   */
  const FilterKeys: seq<string> := ["associatedBondingCurve", "user", "mint"]

  /** The 32 bytes of a solders `Pubkey`. */
  type Key = seq<Byte>

  /** The library calls the handler makes, each `None` where it raises. */
  datatype Codecs = Codecs(
    b64Decode: string -> Option<seq<Byte>>,
    b58Encode: CreateEvent.Base58,
    pubkeyFromString: string -> Option<Key>)

  /** The two kinds of Python object the filter compares: dictionary values and the watched address. */
  datatype PyObject = Str(text: string) | PubkeyObject(key: Key)

  /**
   * Python's `a != b`. A `str` and a `Pubkey` each compare by value with
   * their own kind; across kinds both sides return NotImplemented and
   * Python falls back to identity, so they are always unequal.
   */
  predicate PyNotEqual(a: PyObject, b: PyObject)
    ensures PyNotEqual(a, b) <==> a != b
  {
    match (a, b)
    case (Str(x), Str(y)) => x != y
    case (PubkeyObject(x), PubkeyObject(y)) => x != y
    case _ => true
  }

  /** What handling one log comes to. */
  datatype LogOutcome =
    | NoData                          // no "Program data:" in the log: nothing is tried
    | SplitFailed                     // IndexError: no ": " to take element [1] after
    | Base64Failed                    // base64.b64decode raised
    | AddressFailed                   // Pubkey.from_string(copy_address) raised
    | NotCreateEvent                  // the decoder returned None: the `if` is skipped
    | KeyMissing(key: string)         // KeyError in the filter's lookup
    | Mismatch                        // the filter's `continue`
    | Matched(record: CreateEvent.Record)  // past the filter, on to the bonding-curve derivation

  /** `log.split(": ")[1]`: the text between the first separator and the next, if there is a first. */
  function EncodedText(log: string): (r: Option<string>)
    ensures r.Some? <==> Contains(log, Separator)
    ensures r.Some? ==>
      var rest := log[Find(log, Separator, 0).value + |Separator|..];
      r.value == match Find(rest, Separator, 0)
        case None => rest
        case Some(j) => rest[..j]
  {
    var parts := Split(log, Separator);
    SplitHasSecondPiece(log, Separator);
    if |parts| < 2 then None
    else
      SecondPiece(log, Separator, Find(log, Separator, 0).value);
      Some(parts[1])
  }

  /**
   * The filter of listen.py:133-138: three `!=` tests joined by `or`, left
   * to right from key `k`; a missing key raises KeyError.
   */
  function FilterFrom(record: CreateEvent.Record, watched: PyObject, k: nat): (r: LogOutcome)
    ensures r.Matched? || r.KeyMissing? || r.Mismatch?
    ensures r.Matched? <==>
      forall j | k <= j < |FilterKeys| :: FilterKeys[j] in record && !PyNotEqual(Str(record[FilterKeys[j]]), watched)
    ensures r.Matched? ==> r.record == record
    ensures r.KeyMissing? ==> r.key in FilterKeys && r.key !in record
    decreases |FilterKeys| - k
  {
    if k >= |FilterKeys| then Matched(record)
    else if FilterKeys[k] !in record then KeyMissing(FilterKeys[k])
    else if PyNotEqual(Str(record[FilterKeys[k]]), watched) then Mismatch
    else FilterFrom(record, watched, k + 1)
  }

  /** The body of the per-log `try` (listen.py:121-150), with the outcome it ends in. */
  function HandleLog(log: string, codecs: Codecs, copyAddress: string): (r: LogOutcome)
    ensures r == NoData <==> !Contains(log, DataMarker)
    ensures r == SplitFailed <==> Contains(log, DataMarker) && !Contains(log, Separator)
  {
    if !Contains(log, DataMarker) then NoData
    else
      match EncodedText(log)
      case None => SplitFailed
      case Some(encoded) =>
        match codecs.b64Decode(encoded)
        case None => Base64Failed
        case Some(payload) =>
          var parsed := CreateEvent.ParseCreate(payload, codecs.b58Encode);
          match codecs.pubkeyFromString(copyAddress)
          case None => AddressFailed
          case Some(watched) =>
            Judge(parsed, watched)
  }

  /** listen.py:131-138: the `if parsed_data and 'name' in parsed_data` test, then the filter. */
  function Judge(parsed: Option<CreateEvent.Record>, watched: Key): (r: LogOutcome)
    ensures r == NotCreateEvent <==> parsed.None? || "name" !in parsed.value
    ensures r.Matched? ==> parsed == Some(r.record)
  {
    if parsed.None? || parsed.value == map[] || "name" !in parsed.value then NotCreateEvent
    else FilterFrom(parsed.value, PubkeyObject(watched), 0)
  }

  /** `data['params']['result']['value']` of a notification: its `logs` entry, if present. */
  datatype LogValue = LogValue(logs: Option<seq<string>>)

  /**
   * A message as `json.loads` returns it: its `method` field, if any, and the
   * notification value, `None` where the lookup path raises.
   */
  datatype Message = Message(methodName: Option<string>, value: Option<LogValue>)

  /** What handling one message comes to. */
  datatype MessageOutcome =
    | Ignored                                // not a logsNotification
    | MessageError                           // the value lookup raised: the receive loop breaks
    | NoBuy                                  // no log mentions a Buy instruction
    | Examined(outcomes: seq<LogOutcome>)    // one outcome per log, in order

  /** `log_data.get('logs', [])` */
  function LogsOf(v: LogValue): seq<string>
  {
    match v.logs
    case None => []
    case Some(logs) => logs
  }

  /** `any("Program log: Instruction: Buy" in log for log in logs)` */
  predicate MentionsBuy(logs: seq<string>)
  {
    exists i | 0 <= i < |logs| :: Contains(logs[i], BuyMarker)
  }

  /** One iteration of the receive loop after `json.loads` (listen.py:116-150). */
  function HandleMessage(m: Message, codecs: Codecs, copyAddress: string): (r: MessageOutcome)
    ensures r == Ignored <==> m.methodName != Some(NotificationMethod)
    ensures r == MessageError <==> m.methodName == Some(NotificationMethod) && m.value.None?
    ensures r.Examined? <==>
      m.methodName == Some(NotificationMethod) && m.value.Some? && MentionsBuy(LogsOf(m.value.value))
    ensures r.Examined? ==>
      && |r.outcomes| == |LogsOf(m.value.value)|
      && forall i | 0 <= i < |r.outcomes| :: r.outcomes[i] == HandleLog(LogsOf(m.value.value)[i], codecs, copyAddress)
  {
    if m.methodName != Some(NotificationMethod) then Ignored
    else
      match m.value
      case None => MessageError
      case Some(v) =>
        var logs := LogsOf(v);
        if !MentionsBuy(logs) then NoBuy
        else Examined(seq(|logs|, i requires 0 <= i < |logs| => HandleLog(logs[i], codecs, copyAddress)))
  }

  /** The `any(...)` scan, left to right. */
  method ScanForBuy(logs: seq<string>) returns (found: bool)
    ensures found <==> MentionsBuy(logs)
  {
    found := false;
    var i := 0;
    while i < |logs| && !found
      invariant 0 <= i <= |logs|
      invariant found <==> exists j | 0 <= j < i :: Contains(logs[j], BuyMarker)
    {
      found := Contains(logs[i], BuyMarker);
      i := i + 1;
    }
  }

  /** The `for log in logs` loop, each iteration caught on its own. */
  method ProcessLogs(logs: seq<string>, codecs: Codecs, copyAddress: string) returns (outcomes: seq<LogOutcome>)
    ensures |outcomes| == |logs|
    ensures forall i | 0 <= i < |logs| :: outcomes[i] == HandleLog(logs[i], codecs, copyAddress)
  {
    outcomes := [];
    for i := 0 to |logs|
      invariant |outcomes| == i
      invariant forall j | 0 <= j < i :: outcomes[j] == HandleLog(logs[j], codecs, copyAddress)
    {
      outcomes := outcomes + [HandleLog(logs[i], codecs, copyAddress)];
    }
  }

  /** One message, as the receive loop handles it. */
  method ProcessMessage(m: Message, codecs: Codecs, copyAddress: string) returns (r: MessageOutcome)
    ensures r == HandleMessage(m, codecs, copyAddress)
  {
    if m.methodName != Some(NotificationMethod) {
      return Ignored;
    }
    if m.value.None? {
      return MessageError;
    }
    var logs := LogsOf(m.value.value);
    var found := ScanForBuy(logs);
    if !found {
      return NoBuy;
    }
    var outcomes := ProcessLogs(logs, codecs, copyAddress);
    return Examined(outcomes);
  }

  /** The log holds a "Program data:" text whose encoded part base64-decodes to `payload`. */
  predicate DecodesTo(log: string, codecs: Codecs, payload: seq<Byte>)
  {
    && Contains(log, DataMarker)
    && EncodedText(log).Some?
    && codecs.b64Decode(EncodedText(log).value) == Some(payload)
  }

  /**
   * The watched address is converted after the payload is decoded and
   * before the record is tested: when that conversion raises, every data
   * log whose text base64-decodes ends there, whatever the payload holds.
   */
  lemma AddressFailedFirst(log: string, codecs: Codecs, copyAddress: string, payload: seq<Byte>)
    requires DecodesTo(log, codecs, payload) && codecs.pubkeyFromString(copyAddress).None?
    ensures HandleLog(log, codecs, copyAddress) == AddressFailed
  {
  }

  /**
   * A successful decode always holds "name" and is never empty, so the
   * test `parsed_data and 'name' in parsed_data` is the same as "the
   * decoder did not return None".
   */
  lemma NotCreateEventIff(log: string, codecs: Codecs, copyAddress: string, payload: seq<Byte>)
    requires DecodesTo(log, codecs, payload) && codecs.pubkeyFromString(copyAddress).Some?
    ensures HandleLog(log, codecs, copyAddress) == NotCreateEvent <==>
      CreateEvent.ParseCreate(payload, codecs.b58Encode).None?
  {
    var parsed := CreateEvent.ParseCreate(payload, codecs.b58Encode);
    if parsed.Some? {
      assert "name" in CreateEvent.CreateEventKeys;
      assert "name" in parsed.value;
    }
  }

  /**
   * The filter against a `Pubkey`: its first lookup either raises KeyError
   * or finds a `str`, and a `str` is never equal to a `Pubkey`, so the
   * filter never lets a record through, whatever the record holds.
   */
  lemma FilterOnPubkey(record: CreateEvent.Record, key: Key)
    ensures FilterFrom(record, PubkeyObject(key), 0) ==
      if "associatedBondingCurve" in record then Mismatch else KeyMissing("associatedBondingCurve")
  {
    assert FilterKeys[0] == "associatedBondingCurve";
  }

  /**
   * Every payload that decodes as a CreateEvent ends in a KeyError: the
   * decoder stores the key as "associatedBondingCurve " (with a space) and
   * the filter looks up "associatedBondingCurve".
   */
  lemma CreateEventRaisesKeyError(log: string, codecs: Codecs, copyAddress: string, payload: seq<Byte>)
    requires DecodesTo(log, codecs, payload) && codecs.pubkeyFromString(copyAddress).Some?
    requires CreateEvent.ParseCreate(payload, codecs.b58Encode).Some?
    ensures HandleLog(log, codecs, copyAddress) == KeyMissing("associatedBondingCurve")
  {
    var parsed := CreateEvent.ParseCreate(payload, codecs.b58Encode);
    DecodedRecordRaisesKeyError(parsed.value, codecs.pubkeyFromString(copyAddress).value);
  }

  /** The same on the decoded record: its keys are the nine of CreateEventKeys. */
  lemma DecodedRecordRaisesKeyError(record: CreateEvent.Record, watched: Key)
    requires record.Keys == CreateEvent.CreateEventKeys
    ensures Judge(Some(record), watched) == KeyMissing("associatedBondingCurve")
  {
    assert "name" in CreateEvent.CreateEventKeys;
    assert "associatedBondingCurve" !in CreateEvent.CreateEventKeys;
    FilterOnPubkey(record, watched);
  }

  /** No log ever gets past the filter, nor even to its `continue`. */
  lemma NeverPastFilter(log: string, codecs: Codecs, copyAddress: string)
    ensures !HandleLog(log, codecs, copyAddress).Matched?
    ensures !HandleLog(log, codecs, copyAddress).Mismatch?
  {
    if Contains(log, DataMarker) && EncodedText(log).Some? {
      match codecs.b64Decode(EncodedText(log).value)
      case None =>
      case Some(payload) =>
        if codecs.pubkeyFromString(copyAddress).Some? && CreateEvent.ParseCreate(payload, codecs.b58Encode).Some? {
          CreateEventRaisesKeyError(log, codecs, copyAddress, payload);
        }
    }
  }

  /** In every message the handler examines, no log reaches the copy-trade branch or the filter's `continue`. */
  lemma ExaminedNeverCopies(m: Message, codecs: Codecs, copyAddress: string)
    ensures HandleMessage(m, codecs, copyAddress).Examined? ==>
      forall i | 0 <= i < |HandleMessage(m, codecs, copyAddress).outcomes| ::
        var o := HandleMessage(m, codecs, copyAddress).outcomes[i];
        !o.Matched? && !o.Mismatch?
  {
    if HandleMessage(m, codecs, copyAddress).Examined? {
      var logs := LogsOf(m.value.value);
      forall i | 0 <= i < |logs|
        ensures !HandleLog(logs[i], codecs, copyAddress).Matched? && !HandleLog(logs[i], codecs, copyAddress).Mismatch?
      {
        NeverPastFilter(logs[i], codecs, copyAddress);
      }
    }
  }
}
