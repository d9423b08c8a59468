/**
 * Locating the JSON candidate in a completion: the inclusive span from the
 * first `{` to the last `}` of the response text, or nothing when there is
 * no `{`, no `}`, or the last `}` does not come after the first `{`.
 */
module Extraction {
  import opened Results
  import opened Strings

  /** Prefix of the failure message for a response without a JSON span. */
  const NotJsonPrefix: string := "Response is not JSON:\n"

  /** Some `{` in `text` is followed, somewhere later, by a `}`. */
  predicate HasBracePair(text: string)
  {
    exists i, j :: 0 <= i < j < |text| && text[i] == '{' && text[j] == '}'
  }

  /**
   * The candidate of `translate`: `responseText.slice(startIndex, endIndex + 1)`
   * with `startIndex = indexOf("{")` and `endIndex = lastIndexOf("}")`, or
   * `None` when `!(startIndex >= 0 && endIndex > startIndex)`. A candidate
   * starts with `{` and ends with `}`.
   */
  function ExtractJson(responseText: string): (r: Option<string>)
    ensures r.Some? ==> |r.value| >= 2 && r.value[0] == '{' && r.value[|r.value| - 1] == '}'
  {
    var startIndex := IndexOf(responseText, '{');
    var endIndex := LastIndexOf(responseText, '}');
    if !(startIndex >= 0 && endIndex > startIndex) then None
    else Some(responseText[startIndex..endIndex + 1])
  }

  /**
   * A candidate is a substring of the response with no `{` before it and
   * no `}` after it.
   */
  lemma ExtractJsonIsSubstring(responseText: string)
    ensures var r := ExtractJson(responseText);
      r.Some? ==>
        exists i :: OccursAt(responseText, r.value, i)
          && '{' !in responseText[..i] && '}' !in responseText[i + |r.value|..]
  {
    var startIndex := IndexOf(responseText, '{');
    var r := ExtractJson(responseText);
    if r.Some? {
      assert OccursAt(responseText, r.value, startIndex);
    }
  }

  /**
   * The failure message for a response without a JSON span. Its text is
   * stated by NotJsonMessageEmbeds.
   */
  function NotJsonMessage(responseText: string): (m: string)
    ensures |m| == |"Response is not JSON:\n"| + |responseText|
  {
    NotJsonPrefix + responseText
  }

  /** The "not JSON" message is "Response is not JSON:" and a newline, then the whole response verbatim. */
  lemma NotJsonMessageEmbeds(responseText: string)
    ensures var m := NotJsonMessage(responseText);
      && StartsWith(m, "Response is not JSON:\n")
      && EndsWith(m, responseText)
  {
    ConcatPieces(NotJsonPrefix, responseText);
  }

  /** Extraction succeeds exactly when some `{` is followed later by some `}`. */
  lemma ExtractJsonSomeIff(text: string)
    ensures ExtractJson(text).Some? <==> HasBracePair(text)
  {
    var s, e := IndexOf(text, '{'), LastIndexOf(text, '}');
    if HasBracePair(text) {
      var i, j :| 0 <= i < j < |text| && text[i] == '{' && text[j] == '}';
      assert 0 <= s <= i;
      assert j <= e;
    }
  }

  /**
   * When `i` holds the first `{` and `j` the last `}`, and `j` comes after
   * `i`, the candidate is exactly `text[i..j]` inclusive (the widest span,
   * not the smallest enclosing one).
   */
  lemma ExtractJsonIsFirstToLast(text: string, i: nat, j: nat)
    requires i < j < |text|
    requires text[i] == '{' && forall k :: 0 <= k < i ==> text[k] != '{'
    requires text[j] == '}' && forall k :: j < k < |text| ==> text[k] != '}'
    ensures ExtractJson(text) == Some(text[i..j + 1])
  {
    var s, e := IndexOf(text, '{'), LastIndexOf(text, '}');
    assert s != -1 by { assert text[i] == '{'; }
    assert e != -1 by { assert text[j] == '}'; }
  }
}
