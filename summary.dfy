/**
 * The summary string stored with each accepted article (`get_ai_summary` in
 * main.py): a sentinel when summarising is not possible or fails, otherwise
 * the backend's reply with surrounding whitespace removed.
 */
module Summary {
  import opened Wrappers
  import opened News

  const NotAvailable: string := "Summary not available."
  const SummaryFailed: string := "AI summary failed."

  /** What the chat-completion call gives back: its message text, or an exception. */
  datatype Reply = Completed(content: string) | Raised

  /** Python's `str.isspace` for one character (CPython's whitespace table). */
  predicate IsSpace(c: char)
  {
    ('\t' <= c <= '\r') || ('\U{1C}' <= c <= ' ') || c == '\U{85}' || c == '\U{A0}' ||
    c == '\U{1680}' || ('\U{2000}' <= c <= '\U{200A}') || c == '\U{2028}' ||
    c == '\U{2029}' || c == '\U{202F}' || c == '\U{205F}' || c == '\U{3000}'
  }

  /** True when `s` neither starts nor ends with a character of the class `ws`. */
  predicate Unpadded(s: string, ws: char -> bool)
  {
    s == [] || (!ws(s[0]) && !ws(s[|s| - 1]))
  }

  /** The first position at or after `i` that does not hold a `ws` character (or `|s|`). */
  function SkipForward(s: string, ws: char -> bool, i: nat): (n: nat)
    requires i <= |s|
    decreases |s| - i
    ensures i <= n <= |s|
    ensures forall k :: i <= k < n ==> ws(s[k])
    ensures n < |s| ==> !ws(s[n])
  {
    if i < |s| && ws(s[i]) then SkipForward(s, ws, i + 1) else i
  }

  /** The start of the run of `ws` characters that ends at `j`, not going below `lo`. */
  function SkipBackward(s: string, ws: char -> bool, lo: nat, j: nat): (n: nat)
    requires lo <= j <= |s|
    decreases j
    ensures lo <= n <= j
    ensures forall k :: n <= k < j ==> ws(s[k])
    ensures n > lo ==> !ws(s[n - 1])
  {
    if j > lo && ws(s[j - 1]) then SkipBackward(s, ws, lo, j - 1) else j
  }

  /** Where the kept middle of `s` starts: after the leading `ws` characters. */
  function StripStart(s: string, ws: char -> bool): nat
  {
    SkipForward(s, ws, 0)
  }

  /** Where the kept middle of `s` ends: before the trailing `ws` characters. */
  function StripEnd(s: string, ws: char -> bool): nat
  {
    SkipBackward(s, ws, StripStart(s, ws), |s|)
  }

  /** `s.strip(chars)` for the character class `ws`, scanning as CPython does. */
  function TrimBoth(s: string, ws: char -> bool): string
  {
    s[StripStart(s, ws)..StripEnd(s, ws)]
  }

  /** `s.strip()`: whitespace dropped at both ends. */
  function Strip(s: string): string
  {
    TrimBoth(s, IsSpace)
  }

  /**
   * Trimming keeps the contiguous middle `s[i..j]`, drops only `ws`
   * characters around it, and leaves none at either end of what it keeps.
   */
  lemma TrimBothSlice(s: string, ws: char -> bool)
    ensures var i, j := StripStart(s, ws), StripEnd(s, ws);
            && 0 <= i <= j <= |s|
            && TrimBoth(s, ws) == s[i..j]
            && (forall k :: 0 <= k < i ==> ws(s[k]))
            && (forall k :: j <= k < |s| ==> ws(s[k]))
            && Unpadded(TrimBoth(s, ws), ws)
  {
    var i, j := StripStart(s, ws), StripEnd(s, ws);
    if i < j {
      assert TrimBoth(s, ws)[0] == s[i];
      assert TrimBoth(s, ws)[j - i - 1] == s[j - 1];
    }
  }

  /** A string with no `ws` character at either end is left as it is. */
  lemma UnpaddedUntouched(s: string, ws: char -> bool)
    requires Unpadded(s, ws)
    ensures TrimBoth(s, ws) == s
  {
    assert StripStart(s, ws) == 0;
    assert StripEnd(s, ws) == |s|;
  }

  /** Trimming twice changes nothing more. */
  lemma TrimBothIdempotent(s: string, ws: char -> bool)
    ensures TrimBoth(TrimBoth(s, ws), ws) == TrimBoth(s, ws)
  {
    TrimBothSlice(s, ws);
    UnpaddedUntouched(TrimBoth(s, ws), ws);
  }

  /**
   * `get_ai_summary`: the "not available" sentinel unless both the
   * description and the API key are truthy; then the stripped reply, or the
   * "failed" sentinel when the call raised.
   */
  function AiSummary(description: Option<string>, apiKey: Option<string>, reply: Reply): (s: string)
    ensures !(Truthy(description) && Truthy(apiKey)) ==> s == NotAvailable
    ensures Truthy(description) && Truthy(apiKey) && reply.Raised? ==> s == SummaryFailed
    ensures Truthy(description) && Truthy(apiKey) && reply.Completed? ==> s == Strip(reply.content)
  {
    if !(Truthy(description) && Truthy(apiKey)) then NotAvailable
    else match reply
      case Raised => SummaryFailed
      case Completed(text) => Strip(text)
  }

  /**
   * The "not available" sentinel appears exactly when the inputs are falsy,
   * unless the backend itself answered with that very sentence.
   */
  lemma NotAvailableExactly(description: Option<string>, apiKey: Option<string>, reply: Reply)
    ensures AiSummary(description, apiKey, reply) == NotAvailable <==>
      (!(Truthy(description) && Truthy(apiKey)) ||
       (reply.Completed? && Strip(reply.content) == NotAvailable))
  {
  }

  /** Every summary, sentinel or reply, is free of surrounding whitespace. */
  lemma SummaryUnpadded(description: Option<string>, apiKey: Option<string>, reply: Reply)
    ensures Unpadded(AiSummary(description, apiKey, reply), IsSpace)
  {
    var s := AiSummary(description, apiKey, reply);
    if Truthy(description) && Truthy(apiKey) && reply.Completed? {
      TrimBothSlice(reply.content, IsSpace);
    } else {
      SentinelsUnpadded();
    }
  }

  lemma SentinelsUnpadded()
    ensures Unpadded(NotAvailable, IsSpace) && Unpadded(SummaryFailed, IsSpace)
  {
    assert NotAvailable[0] == 'S' && NotAvailable[|NotAvailable| - 1] == '.';
    assert SummaryFailed[0] == 'A' && SummaryFailed[|SummaryFailed| - 1] == '.';
  }
}
