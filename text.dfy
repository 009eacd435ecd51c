/** The scanning primitives of cJSON2_Parse.c over a C string.

    The JSON text is a `string`; a position is an index into it. Reading at
    or past its end yields the terminator '\0', as reading a NUL-terminated
    buffer does, so a NUL inside the text also ends it for every scan. */
module Text {
  import opened Tree

  /** The character a `char const *` sees at offset `i`. */
  function At(s: string, i: nat): char {
    if i < |s| then s[i] else '\0'
  }

  /** isspace in the C locale. */
  predicate IsSpace(ch: char) {
    ch == ' ' || ch == '\t' || ch == '\n' || ch == '\U{000B}' || ch == '\U{000C}' || ch == '\r'
  }

  /** isdigit in the C locale. */
  predicate IsDigit(ch: char) {
    '0' <= ch <= '9'
  }

  /** Where skip_whitespace stops when it starts at `i`: the first position
      that does not hold a space, the terminator included. */
  function WhitespaceEnd(s: string, i: nat): (r: nat)
    ensures i <= r && !IsSpace(At(s, r))
    ensures forall k :: i <= k < r ==> IsSpace(At(s, k)) && At(s, k) != '\0'
    ensures i <= |s| ==> r <= |s|
    decreases |s| - i
  {
    if i < |s| && IsSpace(s[i]) then WhitespaceEnd(s, i + 1) else i
  }

  /** skip_whitespace: NULL for a NULL string, otherwise the first position
      from `start` on that is not a space, never past the terminator. */
  method SkipWhitespace(text: Option<string>, start: nat) returns (r: Option<nat>)
    ensures text.None? <==> r.None?
    ensures text.Some? ==> r == Some(WhitespaceEnd(text.value, start))
  {
    if text.None? {
      return None;
    }
    var s := text.value;
    var i := start;
    while At(s, i) != '\0' && IsSpace(At(s, i))
      invariant start <= i && WhitespaceEnd(s, i) == WhitespaceEnd(s, start)
      decreases |s| - i
    {
      i := i + 1;
    }
    r := Some(i);
  }

  /** `strncmp(s + i, lit, |lit|) == 0`: the text at `i` spells `lit`. */
  predicate HasPrefix(s: string, i: nat, lit: string) {
    forall k :: 0 <= k < |lit| ==> At(s, i + k) == lit[k]
  }

  /** A literal without a NUL can only match inside the text, so stepping
      over it never passes the terminator. */
  lemma PrefixInside(s: string, i: nat, lit: string)
    requires HasPrefix(s, i, lit) && '\0' !in lit && 0 < |lit|
    ensures i + |lit| <= |s|
  {
    var k := |lit| - 1;
    assert At(s, i + k) == lit[k];
  }

  /** The first `"` or terminator at or after `i`: where the copying loop of
      string_extract_from_crnt_posn stops. */
  function QuoteOrEnd(s: string, i: nat): (r: nat)
    ensures i <= r && (At(s, r) == '"' || At(s, r) == '\0')
    ensures forall k :: i <= k < r ==> At(s, k) != '"' && At(s, k) != '\0'
    ensures i <= |s| ==> r <= |s|
    decreases |s| - i
  {
    if i < |s| && s[i] != '"' && s[i] != '\0' then QuoteOrEnd(s, i + 1) else i
  }

  /** A string the parser extracted: no quote and no terminator inside. */
  predicate Clean(v: string) {
    '"' !in v && '\0' !in v
  }

  /** The text strictly between an opening quote at `p` and the quote that
      closes it is clean. */
  lemma BetweenQuotesClean(s: string, p: nat)
    requires p < |s| && QuoteOrEnd(s, p + 1) < |s|
    ensures Clean(s[p + 1..QuoteOrEnd(s, p + 1)])
  {
    var q := QuoteOrEnd(s, p + 1);
    forall k | p + 1 <= k < q
      ensures s[k] != '"' && s[k] != '\0'
    {
      assert At(s, k) == s[k];
    }
  }

  /** What string_extract_from_crnt_posn reads at `i`: after whitespace, an
      opening quote and everything up to the next quote, escapes not
      interpreted. The result is the contents and the position after the
      closing quote; None when there is no opening quote or the text ends
      inside the string. */
  function QuotedAt(s: string, i: nat): (r: Option<(string, nat)>)
    ensures r.Some? ==> i < r.value.1 <= |s| && Clean(r.value.0)
    ensures r.Some? ==> r.value.1 == WhitespaceEnd(s, i) + |r.value.0| + 2
  {
    var p := WhitespaceEnd(s, i);
    var q := QuoteOrEnd(s, p + 1);
    if At(s, p) == '"' && At(s, q) == '"' then
      BetweenQuotesClean(s, p);
      Some((s[p + 1..q], q + 1))
    else
      None
  }

  /** Quoting a string without quotes or terminators and reading it back
      gives the string and the position after the closing quote, whatever
      follows. */
  lemma QuotedRoundTrip(v: string, rest: string)
    requires Clean(v)
    ensures QuotedAt("\"" + v + "\"" + rest, 0) == Some((v, |v| + 2))
  {
    var s := "\"" + v + "\"" + rest;
    assert WhitespaceEnd(s, 0) == 0 by { assert At(s, 0) == '"'; }
    forall k | 1 <= k < |v| + 1
      ensures At(s, k) != '"' && At(s, k) != '\0'
    {
      assert s[k] == v[k - 1];
    }
    QuoteStopsAt(s, 1, |v| + 1);
    assert s[1..|v| + 1] == v;
  }

  /** The copying loop stops at the first quote or terminator. */
  lemma {:induction false} QuoteStopsAt(s: string, i: nat, q: nat)
    requires i <= q && (At(s, q) == '"' || At(s, q) == '\0')
    requires forall k :: i <= k < q ==> At(s, k) != '"' && At(s, k) != '\0'
    ensures QuoteOrEnd(s, i) == q
    decreases q - i
  {
    if i < q {
      QuoteStopsAt(s, i + 1, q);
    }
  }
}
