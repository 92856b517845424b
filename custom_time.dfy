/**
 * `CustomTime.UnmarshalJSON`: the raw JSON token of a timestamp loses its
 * surrounding quotes; `null` becomes Go's zero Time; anything else goes to
 * the RFC 822 parser (`time.Parse` with `rest.RFC822`), which is not part of
 * this model and is passed in as `parse`.
 */
module CustomTimes {
  import opened Wrappers
  import opened Types

  /** The parser behind `time.Parse(TIME_LAYOUT, s)`: None where Go returns an error. */
  type Parser = string -> Option<Instant>

  /** Number of `"` characters at the front of `s`. */
  function LeadingQuotes(s: string): (k: nat)
    ensures k <= |s|
    ensures forall i :: 0 <= i < k ==> s[i] == '"'
    ensures k == |s| || s[k] != '"'
  {
    if |s| > 0 && s[0] == '"' then 1 + LeadingQuotes(s[1..]) else 0
  }

  /** Number of `"` characters at the back of `s`. */
  function TrailingQuotes(s: string): (k: nat)
    ensures k <= |s|
    ensures forall i :: |s| - k <= i < |s| ==> s[i] == '"'
    ensures k == |s| || s[|s| - 1 - k] != '"'
  {
    if |s| > 0 && s[|s| - 1] == '"' then 1 + TrailingQuotes(s[..|s| - 1]) else 0
  }

  /** `strings.Trim(s, "\"")`: every leading and every trailing `"` removed. */
  function TrimQuotes(s: string): (r: string)
    ensures r == [] || (r[0] != '"' && r[|r| - 1] != '"')
    ensures |r| <= |s|
  {
    var t := s[LeadingQuotes(s)..];
    t[..|t| - TrailingQuotes(t)]
  }

  /**
   * Trimming keeps a contiguous middle of `s` and drops only `"`
   * characters on either side of it.
   */
  lemma TrimQuotesSlice(s: string)
    ensures exists i, j ::
              0 <= i <= j <= |s| && TrimQuotes(s) == s[i..j] &&
              (forall k :: 0 <= k < i ==> s[k] == '"') && (forall k :: j <= k < |s| ==> s[k] == '"')
  {
    var l := LeadingQuotes(s);
    var t := s[l..];
    var j := l + |t| - TrailingQuotes(t);
    assert TrimQuotes(s) == s[l..j];
    assert forall k :: j <= k < |s| ==> s[k] == t[k - l];
  }

  /** A text that neither starts nor ends with `"` comes back unchanged, with or without one pair of quotes around it. */
  lemma TrimQuotesWrapped(t: string)
    requires t == [] || (t[0] != '"' && t[|t| - 1] != '"')
    ensures TrimQuotes("\"" + t + "\"") == t
    ensures TrimQuotes(t) == t
  {
    var q := "\"" + t + "\"";
    if t == [] {
      assert LeadingQuotes(q) == 2;
    } else {
      assert q[1] == t[0];
      assert LeadingQuotes(q) == 1;
      var u := q[1..];
      assert u == t + "\"";
      assert u[|u| - 2] == t[|t| - 1];
      assert TrailingQuotes(u) == 1;
      assert u[..|u| - 1] == t;
      assert LeadingQuotes(t) == 0;
      assert TrailingQuotes(t) == 0;
    }
  }

  /**
   * The instant `UnmarshalJSON` stores in its receiver and the error it
   * returns. `time.Parse` returns the zero Time with its error, so a failed
   * parse leaves the receiver at the zero instant.
   */
  function DecodeTime(b: string, parse: Parser): (r: (Instant, Option<Error>))
    ensures r.1.Some? ==> r.0 == ZeroInstant
  {
    var s := TrimQuotes(b);
    if s == "null" then (ZeroInstant, None)
    else match parse(s)
      case Some(t) => (t, None)
      case None => (ZeroInstant, Some(TimeUnparsable(s)))
  }

  /** Both the quoted `"null"` and the bare `null` decode to the zero instant, whatever the parser. */
  lemma NullDecodesToZero(parse: Parser)
    ensures DecodeTime("\"null\"", parse) == (ZeroInstant, None)
    ensures DecodeTime("null", parse) == (ZeroInstant, None)
  {
    TrimQuotesWrapped("null");
    assert "\"" + "null" + "\"" == "\"null\"";
  }

  /** A quoted timestamp other than `null` decodes to what the parser makes of the text between the quotes. */
  lemma DecodeQuoted(s: string, parse: Parser)
    requires s != "null"
    requires s == [] || (s[0] != '"' && s[|s| - 1] != '"')
    ensures parse(s).Some? ==> DecodeTime("\"" + s + "\"", parse) == (parse(s).value, None)
    ensures parse(s).None? ==> DecodeTime("\"" + s + "\"", parse) == (ZeroInstant, Some(TimeUnparsable(s)))
  {
    TrimQuotesWrapped(s);
  }

  /** The embedded `time.Time` of a `CustomTime`, updated in place by `UnmarshalJSON`. */
  class CustomTime {
    var time: Instant

    /** `CustomTime{}`: the zero Time. */
    constructor ()
      ensures time == ZeroInstant
    {
      time := ZeroInstant;
    }

    method UnmarshalJSON(b: string, parse: Parser) returns (err: Option<Error>)
      modifies this
      ensures (time, err) == DecodeTime(b, parse)
    {
      var s := TrimQuotes(b);
      if s == "null" {
        time := ZeroInstant;
        return None;
      }
      match parse(s) {
        case Some(t) =>
          time, err := t, None;
        case None =>
          time, err := ZeroInstant, Some(TimeUnparsable(s));
      }
    }
  }
}
