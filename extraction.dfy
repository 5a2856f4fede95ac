/** The reply handling of `parse_email_with_gpt`: the completion text is cut
    down to the span from its first `{` to its last `}`, and that span is
    handed to a JSON decoder; a failed decode falls back to an empty
    mapping. The completion call itself and the JSON decoder are outside
    the model: the decoder is a parameter. */
module Extraction {
  import opened PyStrings

  datatype Option<T> = None | Some(value: T)

  /** A JSON value as the decoded reply can carry it. `Str` and `Int` are
      strings and integers; `Other` stands for any other JSON value (a float,
      a boolean, null, a nested list or object) and carries the text that
      Python's `str()` gives for it. */
  datatype Value = Str(s: string) | Int(n: int) | Other(text: string)

  /** The empty string `""` used as filler and as the default scalar. */
  const BLANK: Value := Str("")

  /** The decoded mapping, seen through the six keys the script reads.
      `None` means the key is absent from the mapping. */
  datatype Extracted = Extracted(
    poNumbers: Option<seq<Value>>,
    partNumbers: Option<seq<Value>>,
    quantities: Option<seq<Value>>,
    trackingNumber: Option<Value>,
    source: Option<Value>,
    typeOfEmail: Option<Value>)

  /** The empty mapping `{}` substituted when decoding fails. */
  const EMPTY_MAPPING: Extracted := Extracted(None, None, None, None, None, None)

  /** `d.get(key, [])` for a list-valued key. */
  function ListOr(field: Option<seq<Value>>): (r: seq<Value>)
    ensures field.None? ==> r == []
    ensures field.Some? ==> r == field.value
  {
    match field
    case None => []
    case Some(xs) => xs
  }

  /** `d.get(key, "")` for a scalar key. */
  function ScalarOr(field: Option<Value>): (r: Value)
    ensures field.None? ==> r == BLANK
    ensures field.Some? ==> r == field.value
  {
    match field
    case None => BLANK
    case Some(v) => v
  }

  /** `s.find(c)` for a single character is the first index holding `c`. */
  lemma FindChar(s: string, c: char)
    ensures Find(s, [c]) == -1 <==> c !in s
    ensures Find(s, [c]) != -1 ==>
              0 <= Find(s, [c]) < |s| && s[Find(s, [c])] == c
              && forall k :: 0 <= k < Find(s, [c]) ==> s[k] != c
  {
    FindSpec(s, [c]);
    var r := Find(s, [c]);
    if r == -1 {
      forall k | 0 <= k < |s| ensures s[k] != c {
        OccursAtChar(s, c, k);
      }
    } else {
      OccursAtChar(s, c, r);
      forall k | 0 <= k < r ensures s[k] != c {
        OccursAtChar(s, c, k);
      }
    }
  }

  /** `s.rfind(c)` for a single character is the last index holding `c`. */
  lemma RFindChar(s: string, c: char)
    ensures RFind(s, [c]) == -1 <==> c !in s
    ensures RFind(s, [c]) != -1 ==>
              0 <= RFind(s, [c]) < |s| && s[RFind(s, [c])] == c
              && forall k :: RFind(s, [c]) < k < |s| ==> s[k] != c
  {
    RFindSpec(s, [c]);
    var r := RFind(s, [c]);
    if r == -1 {
      forall k | 0 <= k < |s| ensures s[k] != c {
        OccursAtChar(s, c, k);
      }
    } else {
      OccursAtChar(s, c, r);
      forall k | r < k < |s| ensures s[k] != c {
        OccursAtChar(s, c, k);
      }
    }
  }

  /** `response[response.find('{'):response.rfind('}')+1]`. */
  function BraceSpan(reply: string): (span: string)
    ensures |span| <= |reply|
  {
    Slice(reply, Find(reply, "{"), RFind(reply, "}") + 1)
  }

  /** With a first `{` at `a` and a last `}` at `b` after it, the span is
      exactly `reply[a..b]` inclusive: it opens with `{` and closes with `}`. */
  lemma {:induction false} BraceSpanEnclosed(reply: string, a: nat, b: nat)
    requires a < b < |reply|
    requires reply[a] == '{' && forall k :: 0 <= k < a ==> reply[k] != '{'
    requires reply[b] == '}' && forall k :: b < k < |reply| ==> reply[k] != '}'
    ensures BraceSpan(reply) == reply[a..b + 1]
    ensures BraceSpan(reply)[0] == '{' && BraceSpan(reply)[|BraceSpan(reply)| - 1] == '}'
  {
    FindChar(reply, '{');
    RFindChar(reply, '}');
    assert Find(reply, "{") == a;
    assert RFind(reply, "}") == b;
  }

  /** A reply without any `}` gives an empty span. */
  lemma {:induction false} BraceSpanNoClose(reply: string)
    requires '}' !in reply
    ensures BraceSpan(reply) == []
  {
    RFindChar(reply, '}');
  }

  /** A reply whose last `}` stands before its first `{` gives an empty span. */
  lemma {:induction false} BraceSpanReversed(reply: string, a: nat, b: nat)
    requires b < a < |reply|
    requires reply[a] == '{' && forall k :: 0 <= k < a ==> reply[k] != '{'
    requires reply[b] == '}' && forall k :: b < k < |reply| ==> reply[k] != '}'
    ensures BraceSpan(reply) == []
  {
    FindChar(reply, '{');
    RFindChar(reply, '}');
    assert Find(reply, "{") == a;
    assert RFind(reply, "}") == b;
  }

  /** A reply without any `{` starts the slice at index -1, the last
      character: the span is `"}"` when the reply ends with `}`, and empty
      otherwise. */
  lemma {:induction false} BraceSpanNoOpen(reply: string)
    requires '{' !in reply
    ensures BraceSpan(reply) == if |reply| > 0 && reply[|reply| - 1] == '}' then "}" else []
  {
    FindChar(reply, '{');
    RFindChar(reply, '}');
    if |reply| > 0 && reply[|reply| - 1] == '}' {
      assert RFind(reply, "}") == |reply| - 1;
    }
  }

  /** The decoded details of one reply: the decoded mapping, or the empty
      mapping when decoding the span fails. */
  function ParseReply(reply: string, decode: string -> Option<Extracted>): (details: Extracted)
    ensures decode(BraceSpan(reply)).None? ==> details == EMPTY_MAPPING
    ensures decode(BraceSpan(reply)).Some? ==> details == decode(BraceSpan(reply)).value
  {
    match decode(BraceSpan(reply))
    case Some(d) => d
    case None => EMPTY_MAPPING
  }

  /** When the reply has no `}`, the span is empty, decoding fails (a JSON
      decoder rejects the empty text) and the details are the empty mapping. */
  lemma {:induction false} ParseReplyNoClose(reply: string, decode: string -> Option<Extracted>)
    requires decode([]).None?
    requires '}' !in reply
    ensures ParseReply(reply, decode) == EMPTY_MAPPING
  {
    BraceSpanNoClose(reply);
  }
}
