/**
 * The two telemetry objects the redaction hooks receive: a finished span
 * (`System.Diagnostics.Activity`) with its string-valued tags, and a log
 * record (`OpenTelemetry.Logs.LogRecord`) with its rendered message.
 */
module Telemetry {
  import opened Common

  /** A span tag: its name and its value (`None` for a null value). */
  type Tag = (string, Option<string>)

  function Keys(tags: seq<Tag>): (r: seq<string>)
    ensures |r| == |tags| && forall i :: 0 <= i < |tags| ==> r[i] == tags[i].0
  {
    seq(|tags|, i requires 0 <= i < |tags| => tags[i].0)
  }

  /** The position of the first tag named `key`. */
  function FindKey(tags: seq<Tag>, key: string): (r: Option<nat>)
    ensures r.Some? ==> r.value < |tags| && tags[r.value].0 == key
    ensures forall j :: 0 <= j < |tags| && (r.None? || j < r.value) ==> tags[j].0 != key
  {
    if tags == [] then None
    else if tags[0].0 == key then Some(0)
    else
      match FindKey(tags[1..], key)
      case None => None
      case Some(i) => Some(i + 1)
  }

  /**
   * The tags after `Activity.SetTag(key, value)` with a non-null value:
   * the first tag named `key` takes the new value; a new tag is added at the
   * end when no tag has that name.
   */
  function SetFirst(tags: seq<Tag>, key: string, value: string): (r: seq<Tag>)
    ensures FindKey(tags, key).Some? ==> |r| == |tags| && r[FindKey(tags, key).value] == (key, Some(value))
    ensures FindKey(tags, key).None? ==> r == tags + [(key, Some(value))]
    ensures |tags| <= |r| && forall j :: 0 <= j < |tags| ==> r[j].0 == tags[j].0
    ensures forall j :: 0 <= j < |tags| && tags[j].0 != key ==> r[j] == tags[j]
    ensures FindKey(tags, key).Some? ==> forall j :: 0 <= j < |tags| && j != FindKey(tags, key).value ==> r[j] == tags[j]
  {
    match FindKey(tags, key)
    case Some(i) => tags[i := (key, Some(value))]
    case None => tags + [(key, Some(value))]
  }

  /** Reading a tag back after setting it finds the value just set. */
  lemma SetFirstThenFind(tags: seq<Tag>, key: string, value: string)
    ensures FindKey(SetFirst(tags, key, value), key).Some?
    ensures SetFirst(tags, key, value)[FindKey(SetFirst(tags, key, value), key).value] == (key, Some(value))
  {
    var r := SetFirst(tags, key, value);
    if FindKey(tags, key).None? {
      assert r[|tags|].0 == key;
    }
  }

  /** Setting an existing tag keeps every name, and so the count and order of the tags. */
  lemma SetFirstKeepsKeys(tags: seq<Tag>, key: string, value: string)
    requires key in Keys(tags)
    ensures Keys(SetFirst(tags, key, value)) == Keys(tags)
  {
    var i :| 0 <= i < |tags| && Keys(tags)[i] == key;
    assert FindKey(tags, key).Some?;
  }

  /** A finished span. */
  class Activity {
    var tags: seq<Tag>

    constructor (tags: seq<Tag>)
      ensures this.tags == tags
    {
      this.tags := tags;
    }

    method SetTag(key: string, value: string)
      modifies this
      ensures tags == SetFirst(old(tags), key, value)
    {
      tags := SetFirst(tags, key, value);
    }
  }

  /** A log record; `formattedMessage` is `None` when no message was rendered. */
  class LogRecord {
    var formattedMessage: Option<string>

    constructor (formattedMessage: Option<string>)
      ensures this.formattedMessage == formattedMessage
    {
      this.formattedMessage := formattedMessage;
    }
  }
}
