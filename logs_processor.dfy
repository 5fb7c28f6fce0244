/**
 * The log-record redaction hook
 * (src/eShop.ServiceDefaults/Processors/DataMaskingLogsProcessor.cs):
 * when a finished log record has a rendered message, the first sensitive
 * `name: value` fragment in it is masked.
 *
 * `OnEnd` is the guarded form: the message is replaced only when
 * `MaskPairInString` reports a match. Line 21 of the source assigns the
 * masker's result unconditionally, which stores "no match" (null) over any
 * message without a sensitive fragment; `OnEndAsWritten` models that line
 * as written, and `AsWrittenErasesMessage` exhibits the difference.
 */
module DataMaskingLogsProcessor {
  import opened Common
  import opened Telemetry
  import DataMasking

  /** The message the guarded hook leaves in a record that held `message`. */
  function MaskedMessage(message: Option<string>): (r: Option<string>)
    ensures message.None? ==> r.None?
    ensures message.Some? ==> r.Some? && |r.value| == |message.value|
    ensures message.Some? && DataMasking.MaskPairInString(message.value).None? ==> r == message
    ensures message.Some? && DataMasking.MaskPairInString(message.value).Some? ==>
              r == DataMasking.MaskPairInString(message.value)
  {
    match message
    case None => None
    case Some(m) =>
      match DataMasking.MaskPairInString(m)
      case Some(masked) => Some(masked)
      case None => Some(m)
  }

  /** The message line 21 leaves: whatever the masker returned, match or not. */
  function AsWrittenMessage(message: Option<string>): (r: Option<string>)
    ensures message.None? ==> r.None?
    ensures message.Some? ==> r == DataMasking.MaskPairInString(message.value)
  {
    match message
    case None => None
    case Some(m) => DataMasking.MaskPairInString(m)
  }

  /**
   * `OnEnd(LogRecord)`: a null record or a null message is left alone;
   * otherwise only the message is rewritten, and only on a match.
   */
  method OnEnd(record: LogRecord?)
    modifies record
    ensures record != null ==> record.formattedMessage == MaskedMessage(old(record.formattedMessage))
  {
    if record == null || record.formattedMessage.None? {
      return;
    }
    // Line 21 of the source assigns the masker's result even when it is
    // "no match"; here the message is kept in that case.
    var masked := DataMasking.MaskPairInString(record.formattedMessage.value);
    if masked.Some? {
      record.formattedMessage := masked;
    }
  }

  /** `OnEnd` exactly as line 21 writes it. */
  method OnEndAsWritten(record: LogRecord?)
    modifies record
    ensures record != null ==> record.formattedMessage == AsWrittenMessage(old(record.formattedMessage))
  {
    if record == null || record.formattedMessage.None? {
      return;
    }
    record.formattedMessage := DataMasking.MaskPairInString(record.formattedMessage.value);
  }

  /**
   * As written, every message without a sensitive fragment is erased; the
   * guarded hook keeps it.
   */
  lemma AsWrittenErasesMessage(m: string)
    requires DataMasking.MaskPairInString(m).None?
    ensures AsWrittenMessage(Some(m)) == None
    ensures MaskedMessage(Some(m)) == Some(m)
  {
  }

  /** The concrete case: "order completed" is erased by line 21 and kept by the guarded hook. */
  lemma OrderCompletedExample()
    ensures AsWrittenMessage(Some("order completed")) == None
    ensures MaskedMessage(Some("order completed")) == Some("order completed")
  {
    DataMasking.MaskPairNoMatchExample();
  }

  /** The two forms agree exactly on the messages that hold a sensitive fragment. */
  lemma GuardedAgreesOnMatch(m: string)
    ensures MaskedMessage(Some(m)) == AsWrittenMessage(Some(m)) <==> DataMasking.MaskPairInString(m).Some?
  {
  }

  /**
   * The guarded hook keeps the message's length, every character before
   * the masked value and every character after it.
   */
  lemma MaskedMessageSplice(m: string)
    requires DataMasking.MaskPairInString(m).Some?
    ensures DataMasking.FirstFragment(m, 0).Some?
    ensures
      var f := DataMasking.FirstFragment(m, 0).value;
      var r := MaskedMessage(Some(m)).value;
      && |r| == |m|
      && r[..f.valueStart] == m[..f.valueStart]
      && r[f.valueEnd..] == m[f.valueEnd..]
      && Some(r[f.valueStart..f.valueEnd]) == DataMasking.Mask(m[f.nameStart..f.colon], Some(m[f.valueStart..f.valueEnd]))
  {
  }

  /** The worked example: five identifier characters stay visible. */
  lemma WorkedExample(message: string)
    requires message == "userId: abcdefghijklmnopqrstuvwxyz0123456789AB"
    ensures MaskedMessage(Some(message)) == Some("userId: abcde" + DataMasking.Stars(33))
  {
    DataMasking.MaskPairWorkedExample(message);
  }
}
