/**
 * The sensitivity policy and the two masking primitives of the telemetry
 * redaction pipeline (src/eShop.ServiceDefaults/Processors/DataMasking.cs):
 *
 *  - `Mask` masks the value of one named field: it finds the first policy
 *    entry whose pattern occurs in the field name, ignoring case, keeps the
 *    value's length and replaces its last `min(limit, length)` characters
 *    with '*'; it answers `None` ("no match") when no entry applies.
 *  - `MaskPairInString` masks the first `name: value` fragment of free text
 *    whose name matches the policy, and leaves the rest of the text alone.
 *
 * Case-insensitive comparison is modelled as ASCII lower-casing; every
 * policy pattern is ASCII.
 */
module DataMasking {
  import opened Common

  // ---------------------------------------------------------------------
  // ASCII case folding and case-insensitive containment
  // ---------------------------------------------------------------------

  function LowerChar(c: char): char {
    if 'A' <= c <= 'Z' then (c as int + 32) as char else c
  }

  function Lower(s: string): (r: string)
    ensures |r| == |s|
    ensures forall i :: 0 <= i < |s| ==> r[i] == LowerChar(s[i])
  {
    seq(|s|, i requires 0 <= i < |s| => LowerChar(s[i]))
  }

  predicate IsAsciiLetter(c: char) {
    'A' <= c <= 'Z' || 'a' <= c <= 'z'
  }

  /** `key` occurs in `text` at position `p`, ignoring ASCII case. */
  predicate MatchesAt(text: string, p: int, key: string) {
    0 <= p && p + |key| <= |text| && Lower(text[p..p + |key|]) == Lower(key)
  }

  /** `text.Contains(key, StringComparison.OrdinalIgnoreCase)` on ASCII. */
  predicate ContainsIgnoreCase(text: string, key: string)
  {
    exists p :: 0 <= p <= |text| - |key| && MatchesAt(text, p, key)
  }

  /** A key longer than the text is never contained in it. */
  lemma LongKeyNotContained(text: string, key: string)
    requires |text| < |key|
    ensures !ContainsIgnoreCase(text, key)
  {
  }

  /** As with `String.Contains`, every text contains the empty string. */
  lemma EmptyKeyContained(text: string)
    ensures ContainsIgnoreCase(text, "")
  {
    assert MatchesAt(text, 0, "");
  }

  /** An exact occurrence is a case-insensitive one. */
  lemma ContainsAt(text: string, p: nat, key: string)
    requires p + |key| <= |text| && text[p..p + |key|] == key
    ensures MatchesAt(text, p, key) && ContainsIgnoreCase(text, key)
  {
    assert 0 <= p <= |text| - |key| && MatchesAt(text, p, key);
  }

  /** A key with a (folded) character that `text` lacks is not in `text`. */
  lemma MissingCharNotContained(text: string, key: string, k: nat)
    requires k < |key| && LowerChar(key[k]) !in Lower(text)
    ensures !ContainsIgnoreCase(text, key)
  {
    forall p | 0 <= p <= |text| - |key|
      ensures !MatchesAt(text, p, key)
    {
      assert Lower(text[p..p + |key|])[k] == Lower(text)[p + k];
      assert Lower(text)[p + k] in Lower(text);
    }
  }

  /** Containment only depends on the folded text. */
  lemma ContainsIgnoresCase(a: string, b: string, key: string)
    requires Lower(a) == Lower(b)
    ensures ContainsIgnoreCase(a, key) == ContainsIgnoreCase(b, key)
  {
    forall p | 0 <= p <= |a| - |key|
      ensures MatchesAt(a, p, key) == MatchesAt(b, p, key)
    {
      assert Lower(a[p..p + |key|]) == Lower(a)[p..p + |key|];
      assert Lower(b[p..p + |key|]) == Lower(b)[p..p + |key|];
    }
    if ContainsIgnoreCase(a, key) {
      var p :| 0 <= p <= |a| - |key| && MatchesAt(a, p, key);
      assert MatchesAt(b, p, key);
    }
    if ContainsIgnoreCase(b, key) {
      var p :| 0 <= p <= |b| - |key| && MatchesAt(b, p, key);
      assert MatchesAt(a, p, key);
    }
  }

  // ---------------------------------------------------------------------
  // The sensitivity policy
  // ---------------------------------------------------------------------

  /**
   * Field-name pattern and the largest number of trailing characters to
   * mask, in declaration order. A C# `Dictionary` enumerates a table that
   * is only ever added to in insertion order, so the first match in this
   * sequence is the key `FirstOrDefault` finds.
   */
  const SensitiveKeys: seq<(string, nat)> := [
    ("userId", 33),
    ("buyerId", 33),
    ("subjectId", 33),
    ("BuyerIdentityGuid", 33),
    ("userName", 128),
    ("buyerName", 128),
    ("CardNumber", 13),
    ("CardHolderName", 128)
  ]

  /** Every policy pattern is a non-empty run of ASCII letters. */
  lemma PatternsAreLetters()
    ensures forall k :: 0 <= k < |SensitiveKeys| ==> |SensitiveKeys[k].0| > 0
    ensures forall k, c :: 0 <= k < |SensitiveKeys| && c in SensitiveKeys[k].0 ==> IsAsciiLetter(c)
  {
    forall k, c | 0 <= k < |SensitiveKeys| && c in SensitiveKeys[k].0
      ensures IsAsciiLetter(c)
    {
      assert k == 0 || k == 1 || k == 2 || k == 3 || k == 4 || k == 5 || k == 6 || k == 7;
    }
  }

  function FirstMatchFrom(name: string, i: nat): (r: Option<nat>)
    decreases |SensitiveKeys| - i
    ensures r.Some? ==> i <= r.value < |SensitiveKeys| && ContainsIgnoreCase(name, SensitiveKeys[r.value].0)
    ensures forall j :: i <= j < |SensitiveKeys| && (r.None? || j < r.value) ==>
              !ContainsIgnoreCase(name, SensitiveKeys[j].0)
  {
    if i >= |SensitiveKeys| then None
    else if ContainsIgnoreCase(name, SensitiveKeys[i].0) then Some(i)
    else FirstMatchFrom(name, i + 1)
  }

  /**
   * The index of the first policy entry whose pattern occurs in `name`,
   * ignoring case, or `None` when no pattern does.
   */
  function FirstMatch(name: string): (r: Option<nat>)
    ensures r.Some? ==> r.value < |SensitiveKeys| && ContainsIgnoreCase(name, SensitiveKeys[r.value].0)
    ensures forall j :: 0 <= j < |SensitiveKeys| && (r.None? || j < r.value) ==>
              !ContainsIgnoreCase(name, SensitiveKeys[j].0)
  {
    FirstMatchFrom(name, 0)
  }

  /** `n` asterisks. */
  function Stars(n: nat): (r: string)
    ensures |r| == n && forall i :: 0 <= i < n ==> r[i] == '*'
  {
    seq(n, _ => '*')
  }

  // ---------------------------------------------------------------------
  // Mask
  // ---------------------------------------------------------------------

  /**
   * `DataMasking.Mask(KeyValuePair(key, value))`. `value` is `None` for a
   * null value; the result is `None` for "no match".
   */
  function Mask(key: string, value: Option<string>): (r: Option<string>)
    ensures r.None? <==> value.None? || FirstMatch(key).None?
    ensures r.Some? ==>
              var v := value.value;
              var masked := Min(SensitiveKeys[FirstMatch(key).value].1, |v|);
              && |r.value| == |v|
              && r.value[..|v| - masked] == v[..|v| - masked]
              && forall i :: |v| - masked <= i < |v| ==> r.value[i] == '*'
  {
    var matchingKey := FirstMatch(key);
    if matchingKey.Some? && value.Some? then
      var strValue := value.value;
      var maskLength := Min(SensitiveKeys[matchingKey.value].1, |strValue|);
      var unMaskedLength := |strValue| - maskLength;
      var unmaskedPrefix := if unMaskedLength > 0 then strValue[..unMaskedLength] else "";
      Some(unmaskedPrefix + Stars(maskLength))
    else
      None
  }

  /** A value no longer than the limit comes back entirely starred. */
  lemma {:induction false} MaskShortValue(key: string, v: string)
    requires FirstMatch(key).Some? && |v| <= SensitiveKeys[FirstMatch(key).value].1
    ensures Mask(key, Some(v)) == Some(Stars(|v|))
  {
    var r := Mask(key, Some(v)).value;
    assert r == Stars(|v|);
  }

  /** The empty value masks to the empty string under a matching name. */
  lemma MaskEmptyValue(key: string)
    requires FirstMatch(key).Some?
    ensures Mask(key, Some("")) == Some("")
  {
    MaskShortValue(key, "");
  }

  /** Masking a masked value again under the same name changes nothing. */
  lemma MaskIdempotent(key: string, v: string)
    requires Mask(key, Some(v)).Some?
    ensures Mask(key, Mask(key, Some(v))) == Mask(key, Some(v))
  {
    var w := Mask(key, Some(v)).value;
    var w' := Mask(key, Some(w)).value;
    var masked := Min(SensitiveKeys[FirstMatch(key).value].1, |v|);
    assert w'[..|v| - masked] == w[..|v| - masked];
    forall i | 0 <= i < |w|
      ensures w'[i] == w[i]
    {
      if i < |v| - masked {
        assert w'[i] == w'[..|v| - masked][i];
        assert w[i] == w[..|v| - masked][i];
      }
    }
  }

  /** The folding of the field name is all that matters. */
  lemma MaskIgnoresCase(a: string, b: string, value: Option<string>)
    requires Lower(a) == Lower(b)
    ensures FirstMatch(a) == FirstMatch(b)
    ensures Mask(a, value) == Mask(b, value)
  {
    forall j | 0 <= j < |SensitiveKeys|
      ensures ContainsIgnoreCase(a, SensitiveKeys[j].0) == ContainsIgnoreCase(b, SensitiveKeys[j].0)
    {
      ContainsIgnoresCase(a, b, SensitiveKeys[j].0);
    }
  }

  /**
   * Any field name containing "userId" in any casing: length kept, and the
   * last `min(33, length)` characters starred.
   */
  lemma MaskUserIdField(key: string, v: string)
    requires ContainsIgnoreCase(key, "userId")
    ensures FirstMatch(key) == Some(0)
    ensures Mask(key, Some(v)).Some?
    ensures |Mask(key, Some(v)).value| == |v|
    ensures forall i :: |v| - Min(33, |v|) <= i < |v| ==> Mask(key, Some(v)).value[i] == '*'
  {
  }

  /** Under "userId", a value of `|prefix| + 33` characters keeps exactly its prefix. */
  lemma MaskUserIdKeepsPrefix(prefix: string, rest: string)
    requires |rest| == 33
    ensures Mask("userId", Some(prefix + rest)) == Some(prefix + Stars(33))
  {
    UserIdMatchesFirst();
    var v := prefix + rest;
    assert v[..|prefix|] == prefix;
    var r := Mask("userId", Some(v)).value;
    assert r[..|prefix|] == prefix;
    assert r == r[..|prefix|] + r[|prefix|..];
    assert r[|prefix|..] == Stars(33);
  }

  /** The 16-digit test card under `CardNumber`: three digits stay visible. */
  lemma MaskCardNumberExample()
    ensures Mask("CardNumber", Some("1111222233334444")) == Some("111" + Stars(13))
  {
    CardNumberMatch("CardNumber");
    assert "1111222233334444"[..3] == "111";
  }

  /** "CardNumber" holds none of the six patterns listed before its own entry. */
  lemma CardNumberMatch(name: string)
    requires name == "CardNumber"
    ensures FirstMatch(name) == Some(6)
  {
    assert Lower(name) == "cardnumber";
    MissingCharNotContained(name, "userId", 4);
    MissingCharNotContained(name, "buyerId", 2);
    MissingCharNotContained(name, "subjectId", 0);
    MissingCharNotContained(name, "BuyerIdentityGuid", 2);
    MissingCharNotContained(name, "userName", 1);
    MissingCharNotContained(name, "buyerName", 2);
    ContainsAt(name, 0, "CardNumber");
  }

  /**
   * First match wins: a name holding both "CardNumber" (13) and "userId"
   * (33) uses the earlier entry, so the whole 16-digit card is starred.
   */
  lemma MaskPrecedenceExample()
    ensures Mask("CardNumber.userId", Some("1111222233334444")) == Some(Stars(16))
  {
    ContainsAt("CardNumber.userId", 11, "userId");
    MaskShortValue("CardNumber.userId", "1111222233334444");
  }

  // ---------------------------------------------------------------------
  // MaskPairInString
  // ---------------------------------------------------------------------

  /** `char.IsWhiteSpace` on ASCII: tab, line feed, vertical tab, form feed, carriage return, space. */
  predicate IsWhiteSpace(c: char) {
    c == ' ' || '\t' <= c <= '\r'
  }

  /** A value ends at a comma, a closing brace or white space. */
  predicate IsDelimiter(c: char) {
    c == ',' || c == '}' || IsWhiteSpace(c)
  }

  predicate IsNameChar(c: char) {
    c != ':' && !IsDelimiter(c)
  }

  predicate IsValueChar(c: char) {
    !IsDelimiter(c)
  }

  predicate IsSpace(c: char) {
    c == ' '
  }

  /** The first position at or after `i` whose character fails `keep`, or `|text|`. */
  function SkipWhile(text: string, i: nat, keep: char -> bool): (r: nat)
    requires i <= |text|
    decreases |text| - i
    ensures i <= r <= |text|
    ensures forall j :: i <= j < r ==> keep(text[j])
    ensures r < |text| ==> !keep(text[r])
  {
    if i == |text| || !keep(text[i]) then i else SkipWhile(text, i + 1, keep)
  }

  /** The only position `SkipWhile` can stop at. */
  lemma SkipWhileStopsAt(text: string, i: nat, keep: char -> bool, r: nat)
    requires i <= r <= |text|
    requires forall j :: i <= j < r ==> keep(text[j])
    requires r == |text| || !keep(text[r])
    ensures SkipWhile(text, i, keep) == r
  {
  }

  /** Some policy pattern starts at position `p` of `text`. */
  predicate KeyAt(text: string, p: nat) {
    exists k :: 0 <= k < |SensitiveKeys| && MatchesAt(text, p, SensitiveKeys[k].0)
  }

  /**
   * A `name: value` fragment: the name runs from `nameStart` to the colon,
   * the value from `valueStart` (after the spaces that follow the colon) to
   * `valueEnd` (exclusive).
   */
  datatype Fragment = Fragment(nameStart: nat, colon: nat, valueStart: nat, valueEnd: nat)

  /**
   * The runs a fragment's positions mark out: name characters up to the
   * colon, only spaces between the colon and the value, value characters
   * up to `valueEnd`, and a delimiter (or the end of the text) there.
   */
  predicate Delimits(text: string, f: Fragment)
    requires f.nameStart <= f.colon < f.valueStart <= f.valueEnd <= |text|
  {
    && (forall j :: f.nameStart <= j < f.colon ==> IsNameChar(text[j]))
    && (forall j :: f.colon < j < f.valueStart ==> text[j] == ' ')
    && (forall j :: f.valueStart <= j < f.valueEnd ==> IsValueChar(text[j]))
    && (f.valueEnd < |text| ==> IsDelimiter(text[f.valueEnd]))
  }

  /**
   * `f` is a fragment of `text`: a non-empty name the policy matches, a
   * colon, then a non-empty value, with the runs `Delimits` describes.
   */
  predicate IsFragment(text: string, f: Fragment) {
    && f.nameStart < f.colon < f.valueStart < f.valueEnd <= |text|
    && text[f.colon] == ':'
    && FirstMatch(text[f.nameStart..f.colon]).Some?
    && Delimits(text, f)
  }

  /**
   * The fragment whose name starts with a policy pattern at `p`: the name
   * extends to the first colon, with no delimiter in between; the value,
   * after any spaces, extends until a delimiter or the end, and is not empty.
   */
  function FragmentAt(text: string, p: nat): (r: Option<Fragment>)
    requires p <= |text|
    ensures r.Some? ==> r.value.nameStart == p && IsFragment(text, r.value)
  {
    if !KeyAt(text, p) then None
    else
      var colon := SkipWhile(text, p, IsNameChar);
      if colon == |text| || text[colon] != ':' then None
      else
        var valueStart := SkipWhile(text, colon + 1, IsSpace);
        var valueEnd := SkipWhile(text, valueStart, IsValueChar);
        if valueStart == valueEnd then None
        else
          NameHoldsKey(text, p, colon);
          Some(Fragment(p, colon, valueStart, valueEnd))
  }

  /**
   * Runs as a fragment has them, starting at a policy pattern, are the
   * fragment found there (that its name matches the policy follows).
   */
  lemma FragmentAtComplete(text: string, f: Fragment)
    requires f.nameStart < f.colon < f.valueStart < f.valueEnd <= |text| && text[f.colon] == ':'
    requires KeyAt(text, f.nameStart) && Delimits(text, f)
    ensures FragmentAt(text, f.nameStart) == Some(f)
  {
    FragmentRuns(text, f);
    FragmentAtOfRuns(text, f.nameStart, f.colon, f.valueStart, f.valueEnd);
  }

  /** `FragmentAt` once its three scans are known. */
  lemma FragmentAtOfRuns(text: string, p: nat, colon: nat, valueStart: nat, valueEnd: nat)
    requires p <= |text| && KeyAt(text, p)
    requires SkipWhile(text, p, IsNameChar) == colon < |text| && text[colon] == ':'
    requires SkipWhile(text, colon + 1, IsSpace) == valueStart
    requires SkipWhile(text, valueStart, IsValueChar) == valueEnd != valueStart
    ensures FragmentAt(text, p) == Some(Fragment(p, colon, valueStart, valueEnd))
  {
  }

  /** The three scans of `FragmentAt` stop where a fragment's runs end. */
  lemma FragmentRuns(text: string, f: Fragment)
    requires f.nameStart < f.colon < f.valueStart < f.valueEnd <= |text| && text[f.colon] == ':'
    requires Delimits(text, f)
    ensures SkipWhile(text, f.nameStart, IsNameChar) == f.colon
    ensures SkipWhile(text, f.colon + 1, IsSpace) == f.valueStart
    ensures SkipWhile(text, f.valueStart, IsValueChar) == f.valueEnd
  {
    SkipWhileStopsAt(text, f.nameStart, IsNameChar, f.colon);
    assert !IsSpace(text[f.valueStart]) by {
      assert IsValueChar(text[f.valueStart]);
    }
    SkipWhileStopsAt(text, f.colon + 1, IsSpace, f.valueStart);
    SkipWhileStopsAt(text, f.valueStart, IsValueChar, f.valueEnd);
  }

  /** `FragmentAt` finds exactly the fragments anchored at a policy pattern. */
  lemma FragmentAtExactly(text: string, p: nat, f: Fragment)
    requires p <= |text|
    ensures FragmentAt(text, p) == Some(f) <==> f.nameStart == p && KeyAt(text, p) && IsFragment(text, f)
  {
    if f.nameStart == p && KeyAt(text, p) && IsFragment(text, f) {
      FragmentAtComplete(text, f);
    }
  }

  /** A name that starts with a policy pattern and runs to `colon` matches the policy. */
  lemma NameHoldsKey(text: string, p: nat, colon: nat)
    requires KeyAt(text, p) && p <= colon <= |text|
    requires forall j :: p <= j < colon ==> IsNameChar(text[j])
    requires colon < |text| ==> !IsNameChar(text[colon])
    ensures p < colon && FirstMatch(text[p..colon]).Some?
  {
    var k :| 0 <= k < |SensitiveKeys| && MatchesAt(text, p, SensitiveKeys[k].0);
    var key := SensitiveKeys[k].0;
    PatternsAreLetters();
    forall j | p <= j < p + |key|
      ensures IsAsciiLetter(text[j])
    {
      assert Lower(text[p..p + |key|])[j - p] == Lower(key)[j - p];
      assert key[j - p] in key;
    }
    assert p + |key| <= colon;
    var name := text[p..colon];
    assert name[0..|key|] == text[p..p + |key|];
    assert MatchesAt(name, 0, key);
    assert ContainsIgnoreCase(name, key);
  }

  /** The first fragment starting at or after `p`. */
  function FirstFragment(text: string, p: nat): (r: Option<Fragment>)
    requires p <= |text|
    decreases |text| - p
    ensures r.Some? ==> p <= r.value.nameStart < |text| && FragmentAt(text, r.value.nameStart) == r
    ensures forall q :: p <= q < |text| && (r.None? || q < r.value.nameStart) ==> FragmentAt(text, q).None?
  {
    if p == |text| then None
    else
      var here := FragmentAt(text, p);
      if here.Some? then here
      else
        var rest := FirstFragment(text, p + 1);
        NoFragmentBefore(text, p, if rest.None? then |text| else rest.value.nameStart);
        rest
  }

  /** No fragment in `[p, e)` when there is none at `p` nor in `[p + 1, e)`. */
  lemma NoFragmentBefore(text: string, p: nat, e: nat)
    requires p < e <= |text| && FragmentAt(text, p).None?
    requires forall q :: p + 1 <= q < e ==> FragmentAt(text, q).None?
    ensures forall q :: p <= q < e ==> FragmentAt(text, q).None?
  {
  }

  /**
   * Masks the value of the first sensitive `name: value` fragment of
   * `text` by `Mask(name, value)`, keeping every other character; `None`
   * when `text` holds no such fragment.
   */
  function MaskPairInString(text: string): (r: Option<string>)
    ensures r.None? <==> forall q :: 0 <= q < |text| ==> FragmentAt(text, q).None?
    ensures r.Some? ==>
              var f := FirstFragment(text, 0).value;
              && |r.value| == |text|
              && r.value[..f.valueStart] == text[..f.valueStart]
              && r.value[f.valueEnd..] == text[f.valueEnd..]
              && Some(r.value[f.valueStart..f.valueEnd])
                 == Mask(text[f.nameStart..f.colon], Some(text[f.valueStart..f.valueEnd]))
  {
    match FirstFragment(text, 0)
    case None => None
    case Some(f) =>
      match Mask(text[f.nameStart..f.colon], Some(text[f.valueStart..f.valueEnd]))
      case None => None
      case Some(masked) =>
        SpliceParts(text[..f.valueStart], masked, text[f.valueEnd..]);
        Some(text[..f.valueStart] + masked + text[f.valueEnd..])
  }

  /** The three parts of a splice can be read back from it. */
  lemma SpliceParts(a: string, m: string, b: string)
    ensures |a + m + b| == |a| + |m| + |b|
    ensures (a + m + b)[..|a|] == a
    ensures (a + m + b)[|a|..|a| + |m|] == m
    ensures (a + m + b)[|a| + |m|..] == b
  {
  }

  /**
   * A key-anchored fragment anywhere in the text gets the text masked, at
   * that fragment or at an earlier one.
   */
  lemma FragmentPresentMasks(text: string, f: Fragment)
    requires f.nameStart < f.colon < f.valueStart < f.valueEnd <= |text| && text[f.colon] == ':'
    requires KeyAt(text, f.nameStart) && Delimits(text, f)
    ensures MaskPairInString(text).Some?
    ensures FirstFragment(text, 0).Some? && FirstFragment(text, 0).value.nameStart <= f.nameStart
  {
    FragmentAtComplete(text, f);
  }

  /** Text without a colon holds no fragment. */
  lemma NoColonNoMatch(text: string)
    requires ':' !in text
    ensures MaskPairInString(text) == None
  {
    forall q | 0 <= q < |text|
      ensures FragmentAt(text, q).None?
    {
      var colon := SkipWhile(text, q, IsNameChar);
      if colon < |text| {
        assert text[colon] in text;
      }
    }
  }

  lemma MaskPairNoMatchExample()
    ensures MaskPairInString("order completed") == None
  {
    NoColonNoMatch("order completed");
  }

  /** The first fragment's name always matches the policy. */
  lemma FirstFragmentMasks(text: string, f: Fragment)
    requires FirstFragment(text, 0) == Some(f)
    ensures f.nameStart < f.colon < f.valueStart < f.valueEnd <= |text|
    ensures Mask(text[f.nameStart..f.colon], Some(text[f.valueStart..f.valueEnd])).Some?
  {
  }

  /** The masked text once the first fragment is known. */
  lemma MaskPairOfFirst(text: string, f: Fragment)
    requires FirstFragment(text, 0) == Some(f)
    requires f.nameStart < f.colon < f.valueStart < f.valueEnd <= |text|
    requires Mask(text[f.nameStart..f.colon], Some(text[f.valueStart..f.valueEnd])).Some?
    ensures MaskPairInString(text)
            == Some(text[..f.valueStart]
                    + Mask(text[f.nameStart..f.colon], Some(text[f.valueStart..f.valueEnd])).value
                    + text[f.valueEnd..])
  {
  }

  /** In `userId: value` the fragment is the whole text. */
  lemma LeadingUserIdFragment(value: string)
    requires |value| > 0 && forall c :: c in value ==> IsValueChar(c)
    ensures FragmentAt("userId: " + value, 0) == Some(Fragment(0, 6, 8, 8 + |value|))
  {
    var text := "userId: " + value;
    assert text[..6] == "userId";
    ContainsAt(text, 0, "userId");
    assert KeyAt(text, 0) by {
      assert MatchesAt(text, 0, SensitiveKeys[0].0);
    }
    SkipWhileStopsAt(text, 0, IsNameChar, 6);
    assert text[8] == value[0] && value[0] in value;
    SkipWhileStopsAt(text, 7, IsSpace, 8);
    forall j | 8 <= j < |text|
      ensures IsValueChar(text[j])
    {
      assert text[j] == value[j - 8];
      assert value[j - 8] in value;
    }
    SkipWhileStopsAt(text, 8, IsValueChar, |text|);
  }

  /**
   * A message that starts with `userId: ` and a value: the value is masked
   * under the field name `userId` and the prefix is kept.
   */
  lemma MaskPairLeadingUserId(value: string)
    requires |value| > 0 && forall c :: c in value ==> IsValueChar(c)
    ensures Mask("userId", Some(value)).Some?
    ensures MaskPairInString("userId: " + value)
            == Some("userId: " + Mask("userId", Some(value)).value)
  {
    var text := "userId: " + value;
    var f := Fragment(0, 6, 8, |text|);
    LeadingUserIdFragment(value);
    assert FirstFragment(text, 0) == Some(f);
    assert text[0..6] == "userId";
    assert text[8..|text|] == value;
    assert text[..8] == "userId: ";
    assert text[|text|..] == [];
    FirstFragmentMasks(text, f);
    var m := Mask("userId", Some(value)).value;
    MaskPairOfFirst(text, f);
    assert MaskPairInString(text) == Some("userId: " + m + []);
    assert "userId: " + m + [] == "userId: " + m;
  }

  lemma UserIdMatchesFirst()
    ensures FirstMatch("userId") == Some(0)
  {
    ContainsAt("userId", 0, "userId");
  }

  /** `userId:` followed by 5 visible characters and 33 stars. */
  lemma MaskPairWorkedExample(message: string)
    requires message == "userId: abcdefghijklmnopqrstuvwxyz0123456789AB"
    ensures |message| == 46
    ensures MaskPairInString(message) == Some("userId: abcde" + Stars(33))
  {
    var tail := "fghijklmnopqrstuvwxyz0123456789AB";
    var value := "abcde" + tail;
    ExampleSpelling();
    ConcatAssoc("userId: ", "abcde", tail);
    ExampleValueMasked(value);
    StarsExampleSpelling();
  }

  lemma StarsExampleSpelling()
    ensures "userId: " + "abcde" + Stars(33) == "userId: abcde" + Stars(33)
  {
  }

  lemma ExampleValueMasked(value: string)
    requires value == "abcde" + "fghijklmnopqrstuvwxyz0123456789AB"
    ensures MaskPairInString("userId: " + value) == Some("userId: " + "abcde" + Stars(33))
  {
    ExampleSpelling();
    ExampleValueChars(value);
    MaskPairLeadingUserId(value);
    UserIdMatchesFirst();
    assert |value| == 38 && value[..5] == "abcde";
    assert Mask("userId", Some(value)) == Some("abcde" + Stars(33));
    ConcatAssoc("userId: ", "abcde", Stars(33));
  }

  lemma ConcatAssoc(a: string, b: string, c: string)
    ensures a + (b + c) == a + b + c
  {
  }

  lemma ExampleSpelling()
    ensures "userId: abcdefghijklmnopqrstuvwxyz0123456789AB" == "userId: " + "abcde" + "fghijklmnopqrstuvwxyz0123456789AB"
    ensures |"fghijklmnopqrstuvwxyz0123456789AB"| == 33
  {
  }

  lemma ExampleValueChars(value: string)
    requires value == "abcde" + "fghijklmnopqrstuvwxyz0123456789AB"
    ensures |value| > 0 && forall c :: c in value ==> IsValueChar(c)
  {
    forall c | c in value
      ensures IsValueChar(c)
    {
      assert c in "abcde" || c in "fghijklmnopqrstuvwxyz0123456789AB";
    }
  }
}
