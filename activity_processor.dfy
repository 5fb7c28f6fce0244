/**
 * The span redaction hook (src/eShop.ServiceDefaults/Processors/
 * DataMaskingActivityProcessor.cs): when a span ends, every string tag is
 * masked in place. A value wrapped in braces is a serialized JSON object
 * whose string fields are masked one by one under their own field names;
 * any other value is masked under the tag's name.
 *
 * Newtonsoft.Json is outside the model: `parse` and `serialize` are
 * parameters standing for `JsonConvert.DeserializeObject` and
 * `JsonConvert.SerializeObject`.
 */
module DataMaskingActivityProcessor {
  import opened Common
  import opened Telemetry
  import DataMasking

  /** The value of one field of a nested tag: a JSON string, or any other JSON value (null included) as raw text. */
  datatype JsonValue = Str(s: string) | Other(raw: string)

  type Field = (string, JsonValue)

  predicate UniqueKeys(fields: seq<Field>) {
    forall i, j :: 0 <= i < j < |fields| ==> fields[i].0 != fields[j].0
  }

  /** A `Dictionary<string, object>`: entries in enumeration order, names distinct. */
  type Dictionary = fields: seq<Field> | UniqueKeys(fields)

  /** `DeserializeObject` either throws a `JsonException`, returns null, or returns a dictionary. */
  datatype Parsed = JsonError | JsonNull | Parsed(dictionary: Dictionary)

  /** `value.StartsWith("{") && value.EndsWith("}")` */
  predicate IsNestedValue(value: string)
    ensures IsNestedValue(value) ==> 2 <= |value|
  {
    |value| > 0 && value[0] == '{' && value[|value| - 1] == '}'
  }

  /** One field after masking: a string masked under its field name when the policy matches. */
  function MaskField(field: Field): (r: Field)
    ensures r.0 == field.0
  {
    match field.1
    case Other(_) => field
    case Str(value) =>
      match DataMasking.Mask(field.0, Some(value))
      case None => field
      case Some(masked) => (field.0, Str(masked))
  }

  function MaskedDictionary(dictionary: Dictionary): (r: Dictionary)
    ensures |r| == |dictionary|
  {
    seq(|dictionary|, i requires 0 <= i < |dictionary| => MaskField(dictionary[i]))
  }

  /**
   * Field by field: names and order are kept, non-string values and strings
   * whose name the policy does not match are kept, and every other string
   * is replaced by its masked form.
   */
  lemma MaskedDictionaryAt(dictionary: Dictionary, i: nat)
    requires i < |dictionary|
    ensures MaskedDictionary(dictionary)[i].0 == dictionary[i].0
    ensures dictionary[i].1.Other? ==> MaskedDictionary(dictionary)[i] == dictionary[i]
    ensures dictionary[i].1.Str? ==>
              var masked := DataMasking.Mask(dictionary[i].0, Some(dictionary[i].1.s));
              MaskedDictionary(dictionary)[i].1 == Str(masked.GetOr(dictionary[i].1.s))
  {
  }

  /** A dictionary none of whose string fields the policy matches comes back unchanged. */
  lemma MaskedDictionaryUnchanged(dictionary: Dictionary)
    requires forall i :: 0 <= i < |dictionary| && dictionary[i].1.Str? ==>
               DataMasking.FirstMatch(dictionary[i].0).None?
    ensures MaskedDictionary(dictionary) == dictionary
  {
  }

  /**
   * The inner loop of `OnEnd`: every string field whose masked value is not
   * null is overwritten with it (`dictionary[nestedTag.Key] = maskedValue`,
   * which, the names being distinct, is the entry being visited).
   */
  method MaskNestedTags(dictionary: Dictionary) returns (r: Dictionary)
    ensures r == MaskedDictionary(dictionary)
  {
    r := dictionary;
    for i := 0 to |r|
      invariant |r| == |dictionary|
      invariant forall j :: 0 <= j < i ==> r[j] == MaskField(dictionary[j])
      invariant forall j :: i <= j < |r| ==> r[j] == dictionary[j]
    {
      var (key, value) := r[i];
      if value.Other? {
        continue;
      }
      var maskedValue := DataMasking.Mask(key, Some(value.s));
      if maskedValue.Some? {
        r := r[i := (key, Str(maskedValue.value))];
      }
    }
  }

  /**
   * The value the hook writes into a tag, or `None` when it leaves the tag
   * alone: a nested value is re-serialized after masking whenever it parses
   * to a dictionary, and is never masked under the tag's own name; any other
   * value is masked under the tag's name.
   */
  function MaskedTagValue(key: string, value: string, parse: string -> Parsed, serialize: Dictionary -> string)
    : (r: Option<string>)
    ensures IsNestedValue(value) ==> (r.Some? <==> parse(value).Parsed?)
    ensures !IsNestedValue(value) ==> (r.Some? <==> DataMasking.FirstMatch(key).Some?)
    ensures !IsNestedValue(value) && r.Some? ==> |r.value| == |value|
  {
    if IsNestedValue(value) then
      match parse(value)
      case Parsed(dictionary) => Some(serialize(MaskedDictionary(dictionary)))
      case _ => None
    else
      DataMasking.Mask(key, Some(value))
  }

  /** The effect of visiting one tag of the snapshot. */
  function VisitTag(tags: seq<Tag>, tag: Tag, parse: string -> Parsed, serialize: Dictionary -> string): (r: seq<Tag>)
    ensures tag.1.None? ==> r == tags
    ensures FindKey(tags, tag.0).Some? ==> |r| == |tags|
    ensures |tags| <= |r| && forall j :: 0 <= j < |tags| ==> r[j].0 == tags[j].0
    ensures forall j :: 0 <= j < |tags| && tags[j].0 != tag.0 ==> r[j] == tags[j]
  {
    if tag.1.None? then tags
    else
      match MaskedTagValue(tag.0, tag.1.value, parse, serialize)
      case None => tags
      case Some(masked) => SetFirst(tags, tag.0, masked)
  }

  /** The tags after visiting the tags of `snapshot` in order. */
  function VisitAll(tags: seq<Tag>, snapshot: seq<Tag>, parse: string -> Parsed, serialize: Dictionary -> string)
    : (r: seq<Tag>)
    decreases |snapshot|
    ensures |tags| <= |r| && forall j :: 0 <= j < |tags| ==> r[j].0 == tags[j].0
  {
    if snapshot == [] then tags
    else
      var n := |snapshot| - 1;
      VisitTag(VisitAll(tags, snapshot[..n], parse, serialize), snapshot[n], parse, serialize)
  }

  /** A span's tags after the hook: every tag of the original list visited in order. */
  function Redacted(tags: seq<Tag>, parse: string -> Parsed, serialize: Dictionary -> string): (r: seq<Tag>)
    ensures |r| == |tags| && forall j :: 0 <= j < |tags| ==> r[j].0 == tags[j].0
  {
    VisitAllKeepsKeys(tags, |tags|, parse, serialize);
    assert tags[..|tags|] == tags;
    VisitAll(tags, tags, parse, serialize)
  }

  /** `OnEnd(Activity)`; a null span is left alone. */
  method OnEnd(activity: Activity?, parse: string -> Parsed, serialize: Dictionary -> string)
    modifies activity
    ensures activity != null ==> activity.tags == Redacted(old(activity.tags), parse, serialize)
  {
    if activity == null {
      return;
    }
    var tags := activity.tags;
    for i := 0 to |tags|
      invariant activity.tags == VisitAll(tags, tags[..i], parse, serialize)
    {
      assert tags[..i + 1][..i] == tags[..i];
      var (key, value) := tags[i];
      if value.None? {
        continue;
      }
      if IsNestedValue(value.value) {
        // Process nested dictionary tags; a JsonException leaves the tag as it was.
        var parsed := parse(value.value);
        if parsed.Parsed? {
          var dictionary := MaskNestedTags(parsed.dictionary);
          activity.SetTag(key, serialize(dictionary));
        }
      } else {
        // Process simple tags.
        var maskedValue := DataMasking.Mask(key, Some(value.value));
        if maskedValue.Some? {
          activity.SetTag(key, maskedValue.value);
        }
      }
    }
    assert tags[..|tags|] == tags;
  }

  // ---------------------------------------------------------------------
  // What the hook does to a span
  // ---------------------------------------------------------------------

  /** The tag as the hook leaves it when its name is the only one of its kind. */
  function Updated(tag: Tag, parse: string -> Parsed, serialize: Dictionary -> string): (r: Tag)
    ensures r.0 == tag.0
    ensures tag.1.None? <==> r.1.None?
  {
    if tag.1.None? then tag
    else
      match MaskedTagValue(tag.0, tag.1.value, parse, serialize)
      case None => tag
      case Some(masked) => (tag.0, Some(masked))
  }

  lemma {:induction false} VisitAllKeepsKeys(tags: seq<Tag>, n: nat, parse: string -> Parsed, serialize: Dictionary -> string)
    requires n <= |tags|
    ensures Keys(VisitAll(tags, tags[..n], parse, serialize)) == Keys(tags)
  {
    if n > 0 {
      assert tags[..n][..n - 1] == tags[..n - 1];
      VisitAllKeepsKeys(tags, n - 1, parse, serialize);
      var before := VisitAll(tags, tags[..n - 1], parse, serialize);
      var tag := tags[n - 1];
      assert before[n - 1].0 == Keys(tags)[n - 1] == tag.0;
      assert FindKey(before, tag.0).Some?;
      var after := VisitTag(before, tag, parse, serialize);
      assert Keys(after) == Keys(before);
    }
  }

  /** The hook never adds, removes, renames or reorders tags. */
  lemma RedactedKeepsKeys(tags: seq<Tag>, parse: string -> Parsed, serialize: Dictionary -> string)
    ensures |Redacted(tags, parse, serialize)| == |tags|
    ensures Keys(Redacted(tags, parse, serialize)) == Keys(tags)
  {
    VisitAllKeepsKeys(tags, |tags|, parse, serialize);
    assert tags[..|tags|] == tags;
  }

  predicate DistinctKeys(tags: seq<Tag>) {
    forall i, j :: 0 <= i < j < |tags| ==> tags[i].0 != tags[j].0
  }

  lemma {:induction false} VisitAllDistinct(tags: seq<Tag>, n: nat, parse: string -> Parsed, serialize: Dictionary -> string)
    requires n <= |tags| && DistinctKeys(tags)
    ensures |VisitAll(tags, tags[..n], parse, serialize)| == |tags|
    ensures forall i :: 0 <= i < |tags| ==>
              VisitAll(tags, tags[..n], parse, serialize)[i]
              == if i < n then Updated(tags[i], parse, serialize) else tags[i]
  {
    if n > 0 {
      assert tags[..n][..n - 1] == tags[..n - 1];
      VisitAllDistinct(tags, n - 1, parse, serialize);
      var before := VisitAll(tags, tags[..n - 1], parse, serialize);
      var after := VisitAll(tags, tags[..n], parse, serialize);
      assert after == VisitTag(before, tags[n - 1], parse, serialize);
      assert before[n - 1] == tags[n - 1];
      assert forall j :: 0 <= j < n - 1 ==> before[j].0 == tags[j].0 != tags[n - 1].0;
      VisitOwnTag(before, n - 1, parse, serialize);
      forall i | 0 <= i < |tags|
        ensures after[i] == if i < n then Updated(tags[i], parse, serialize) else tags[i]
      {
        if i != n - 1 {
          assert after[i] == before[i];
        }
      }
    }
  }

  /** Visiting a tag whose name no earlier tag has rewrites that tag in place. */
  lemma VisitOwnTag(tags: seq<Tag>, k: nat, parse: string -> Parsed, serialize: Dictionary -> string)
    requires k < |tags| && forall j :: 0 <= j < k ==> tags[j].0 != tags[k].0
    ensures |VisitTag(tags, tags[k], parse, serialize)| == |tags|
    ensures forall i :: 0 <= i < |tags| ==>
              VisitTag(tags, tags[k], parse, serialize)[i] == if i == k then Updated(tags[k], parse, serialize) else tags[i]
  {
    assert FindKey(tags, tags[k].0) == Some(k);
  }

  /**
   * When no two tags share a name, each tag is rewritten in its own place:
   * to its masked value when the hook produces one, otherwise it is kept.
   */
  lemma RedactedDistinct(tags: seq<Tag>, parse: string -> Parsed, serialize: Dictionary -> string)
    requires DistinctKeys(tags)
    ensures |Redacted(tags, parse, serialize)| == |tags|
    ensures forall i :: 0 <= i < |tags| ==> Redacted(tags, parse, serialize)[i] == Updated(tags[i], parse, serialize)
  {
    VisitAllDistinct(tags, |tags|, parse, serialize);
    assert tags[..|tags|] == tags;
  }

  /** A nested value's fate does not depend on the tag's name. */
  lemma NestedIgnoresTagName(key1: string, key2: string, value: string, parse: string -> Parsed, serialize: Dictionary -> string)
    requires IsNestedValue(value)
    ensures MaskedTagValue(key1, value, parse, serialize) == MaskedTagValue(key2, value, parse, serialize)
  {
  }

  /**
   * `SetTag` finds its tag by name, so when two tags share a name the second
   * one's masked value lands in the first tag and the second tag keeps its
   * raw value.
   */
  lemma DuplicateNameExample(tags: seq<Tag>, parse: string -> Parsed, serialize: Dictionary -> string)
    requires tags == [("userId", Some("abcd")), ("userId", Some("efgh"))]
    ensures Redacted(tags, parse, serialize) == [("userId", Some("****")), ("userId", Some("efgh"))]
  {
    DataMasking.UserIdMatchesFirst();
    assert DataMasking.Stars(4) == "****";
    assert DataMasking.Mask("userId", Some("abcd")) == Some("****");
    assert DataMasking.Mask("userId", Some("efgh")) == Some("****");
    assert tags[..2] == tags && tags[..2][..1] == [tags[0]] && [tags[0]][..0] == [];
    assert !IsNestedValue("abcd") && !IsNestedValue("efgh");
    assert MaskedTagValue("userId", "abcd", parse, serialize) == Some("****");
    assert MaskedTagValue("userId", "efgh", parse, serialize) == Some("****");
    assert VisitAll(tags, [], parse, serialize) == tags;
    assert FindKey(tags, "userId") == Some(0);
    var afterFirst := VisitAll(tags, [tags[0]], parse, serialize);
    assert afterFirst == VisitTag(tags, tags[0], parse, serialize);
    assert afterFirst == [("userId", Some("****")), ("userId", Some("efgh"))];
    assert FindKey(afterFirst, "userId") == Some(0);
  }

  /** "status" contains no policy pattern. */
  lemma StatusIsNotSensitive()
    ensures DataMasking.FirstMatch("status").None?
  {
    var name := "status";
    assert DataMasking.Lower(name) == "status";
    DataMasking.MissingCharNotContained(name, "userId", 4);
    DataMasking.MissingCharNotContained(name, "buyerId", 0);
    DataMasking.MissingCharNotContained(name, "subjectId", 2);
    DataMasking.MissingCharNotContained(name, "BuyerIdentityGuid", 0);
    DataMasking.MissingCharNotContained(name, "userName", 2);
    DataMasking.MissingCharNotContained(name, "buyerName", 0);
    DataMasking.MissingCharNotContained(name, "CardNumber", 0);
    DataMasking.MissingCharNotContained(name, "CardHolderName", 0);
  }

  /**
   * A nested payload such as `{"userId":"12345678-1234-1234-1234-123456789012","status":"ok"}`:
   * whatever its exact text, once parsed the 36-character identifier keeps
   * its first 3 characters and "status" is untouched.
   */
  lemma NestedPayloadExample(key: string, value: string, parse: string -> Parsed, serialize: Dictionary -> string, id: string)
    requires IsNestedValue(value) && |id| == 36
    requires parse(value) == Parsed([("userId", Str(id)), ("status", Str("ok"))])
    ensures MaskedTagValue(key, value, parse, serialize)
            == Some(serialize([("userId", Str(id[..3] + DataMasking.Stars(33))), ("status", Str("ok"))]))
  {
    StatusIsNotSensitive();
    GuidMasked(id);
    var dictionary: Dictionary := [("userId", Str(id)), ("status", Str("ok"))];
    assert MaskField(dictionary[0]) == ("userId", Str(id[..3] + DataMasking.Stars(33)));
    assert MaskField(dictionary[1]) == dictionary[1];
    assert MaskedDictionary(dictionary) == [("userId", Str(id[..3] + DataMasking.Stars(33))), ("status", Str("ok"))];
  }

  lemma GuidMasked(id: string)
    requires |id| == 36
    ensures DataMasking.Mask("userId", Some(id)) == Some(id[..3] + DataMasking.Stars(33))
  {
    assert id == id[..3] + id[3..];
    DataMasking.MaskUserIdKeepsPrefix(id[..3], id[3..]);
  }
}
