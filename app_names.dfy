/**
 * The `appName` pattern
 *   ^aws-reconciler-production-([0-9]{12})-([0-9]{4})-([0-9]{2})$
 * as a hand-written matcher: the pattern is a list of pieces (literal text
 * or a fixed-width digit group) consumed from the front of the name in turn;
 * the result is the three capture groups, or None when the name does not
 * match.
 */
module AppNames {
  import opened Wrappers

  /** The literal part of the pattern after the `^` anchor. */
  const Prefix: string := "aws-reconciler-production-"

  /**
   * The three capture groups: the 12-digit AWS account (the "master"
   * column), the 4-digit year and the 2-digit month.
   */
  datatype NameParts = NameParts(master: string, year: string, month: string)

  /** One piece of the pattern: literal text, or a capture group `([0-9]{width})`. */
  datatype Piece = Text(text: string) | Group(width: nat)

  /** APPNAME_REG, between its `^` and `$` anchors. */
  const Pattern: seq<Piece> := [Text(Prefix), Group(12), Text("-"), Group(4), Text("-"), Group(2)]

  predicate IsDigit(c: char) { '0' <= c <= '9' }

  /** `s` is exactly `n` ASCII digits: the regex piece `[0-9]{n}`. */
  predicate IsDigits(s: string, n: nat) {
    |s| == n && forall i :: 0 <= i < |s| ==> IsDigit(s[i])
  }

  predicate WellFormed(p: NameParts) {
    IsDigits(p.master, 12) && IsDigits(p.year, 4) && IsDigits(p.month, 2)
  }

  /** The name whose decomposition is `p`. */
  function Compose(p: NameParts): (name: string)
  {
    Prefix + p.master + "-" + p.year + "-" + p.month
  }

  /** Consumes the literal `lit` from the front of `s`; returns what follows it. */
  function Literal(s: string, lit: string): (r: Option<string>)
    ensures r.Some? ==> s == lit + r.value
  {
    if |lit| <= |s| && s[..|lit|] == lit then
      assert s == lit + s[|lit|..];
      Some(s[|lit|..])
    else
      None
  }

  /** Consumes exactly `n` digits from the front of `s`; returns them and what follows. */
  function Digits(s: string, n: nat): (r: Option<(string, string)>)
    ensures r.Some? ==> IsDigits(r.value.0, n) && s == r.value.0 + r.value.1
  {
    if n <= |s| && IsDigits(s[..n], n) then
      assert s == s[..n] + s[n..];
      Some((s[..n], s[n..]))
    else
      None
  }

  /** The widths of the capture groups of `pat`, in order. */
  function Widths(pat: seq<Piece>): seq<nat> {
    if pat == [] then []
    else if pat[0].Group? then [pat[0].width] + Widths(pat[1..])
    else Widths(pat[1..])
  }

  /** The text `pat` matches when its groups capture `groups`. */
  function Render(pat: seq<Piece>, groups: seq<string>): string
    requires |groups| == |Widths(pat)|
  {
    if pat == [] then []
    else match pat[0]
      case Text(t) => t + Render(pat[1..], groups)
      case Group(_) => groups[0] + Render(pat[1..], groups[1..])
  }

  /**
   * Matches all of `s` against `pat`, returning the captured groups. With
   * the empty pattern only the empty text matches: the `$` anchor.
   */
  function Scan(s: string, pat: seq<Piece>): (r: Option<seq<string>>)
    ensures r.Some? ==> |r.value| == |Widths(pat)| && s == Render(pat, r.value)
    ensures r.Some? ==> forall i :: 0 <= i < |r.value| ==> IsDigits(r.value[i], Widths(pat)[i])
  {
    if pat == [] then
      if s == [] then Some([]) else None
    else match pat[0]
      case Text(t) =>
        var rest :- Literal(s, t);
        Scan(rest, pat[1..])
      case Group(n) =>
        var d :- Digits(s, n);
        var groups :- Scan(d.1, pat[1..]);
        Some([d.0] + groups)
  }

  /** The pattern has three groups, of 12, 4 and 2 digits. */
  lemma PatternWidths()
    ensures Widths(Pattern) == [12, 4, 2]
  {
    var tail := [Group(2)];
    assert Widths(tail) == [2];
    assert Widths([Text("-")] + tail) == [2];
    tail := [Group(4), Text("-"), Group(2)];
    assert Widths(tail) == [4, 2];
    assert Widths([Text("-")] + tail) == [4, 2];
    tail := [Group(12), Text("-"), Group(4), Text("-"), Group(2)];
    assert Widths(tail) == [12, 4, 2];
    assert Pattern == [Text(Prefix)] + tail;
  }

  /** The pattern renders as Compose. */
  lemma RenderPattern(p: NameParts)
    ensures Widths(Pattern) == [12, 4, 2]
    ensures Render(Pattern, [p.master, p.year, p.month]) == Compose(p)
  {
    var gs := [p.master, p.year, p.month];
    PatternWidths();
    assert Render(Pattern[5..], gs[2..]) == p.month + [];
    assert Render(Pattern[4..], gs[2..]) == "-" + (p.month + []);
    assert Render(Pattern[3..], gs[1..]) == p.year + ("-" + (p.month + []));
    assert Render(Pattern[2..], gs[1..]) == "-" + (p.year + ("-" + (p.month + [])));
    assert Render(Pattern[1..], gs) == p.master + ("-" + (p.year + ("-" + (p.month + []))));
  }

  /**
   * `re.FindStringSubmatch(name)[1..4]`, or None where `re.MatchString(name)`
   * is false.
   */
  function Match(name: string): (r: Option<NameParts>)
    ensures r.Some? ==> WellFormed(r.value) && Compose(r.value) == name
  {
    var groups :- Scan(name, Pattern);
    PatternWidths();
    RenderPattern(NameParts(groups[0], groups[1], groups[2]));
    assert groups == [groups[0], groups[1], groups[2]];
    Some(NameParts(groups[0], groups[1], groups[2]))
  }

  /** Literal consumes its literal from any string that starts with it. */
  lemma LiteralOf(lit: string, t: string)
    ensures Literal(lit + t, lit) == Some(t)
  {
    assert (lit + t)[..|lit|] == lit;
    assert (lit + t)[|lit|..] == t;
  }

  /** Digits consumes `n` digits from any string that starts with them. */
  lemma DigitsOf(d: string, t: string, n: nat)
    requires IsDigits(d, n)
    ensures Digits(d + t, n) == Some((d, t))
  {
    assert (d + t)[..n] == d;
    assert (d + t)[n..] == t;
  }

  /** Scanning a rendered text gives back the groups it was rendered from: the pieces have fixed widths. */
  lemma {:induction false} ScanRender(pat: seq<Piece>, groups: seq<string>)
    requires |groups| == |Widths(pat)|
    requires forall i :: 0 <= i < |groups| ==> IsDigits(groups[i], Widths(pat)[i])
    ensures Scan(Render(pat, groups), pat) == Some(groups)
  {
    if pat != [] {
      match pat[0]
      case Text(t) =>
        assert Widths(pat) == Widths(pat[1..]);
        assert Render(pat, groups) == t + Render(pat[1..], groups);
        ScanRender(pat[1..], groups);
        LiteralOf(t, Render(pat[1..], groups));
      case Group(n) =>
        assert Widths(pat) == [n] + Widths(pat[1..]);
        assert IsDigits(groups[0], n);
        assert Render(pat, groups) == groups[0] + Render(pat[1..], groups[1..]);
        ScanRender(pat[1..], groups[1..]);
        DigitsOf(groups[0], Render(pat[1..], groups[1..]), n);
        assert groups == [groups[0]] + groups[1..];
    }
  }

  /** Every name of the pattern's shape matches and splits back into exactly its parts. */
  lemma MatchCompose(p: NameParts)
    requires WellFormed(p)
    ensures Match(Compose(p)) == Some(p)
  {
    var groups := [p.master, p.year, p.month];
    RenderPattern(p);
    ScanRender(Pattern, groups);
  }

  /** A name matches exactly when it has the pattern's shape; a name of any other shape gives None. */
  lemma MatchIff(name: string)
    ensures Match(name).Some? <==> exists p :: WellFormed(p) && Compose(p) == name
  {
    if p :| WellFormed(p) && Compose(p) == name {
      MatchCompose(p);
    }
  }

  /** The decomposition is unique: two shapes that compose to the same name are the same. */
  lemma ComposeInjective(p: NameParts, q: NameParts)
    requires WellFormed(p) && WellFormed(q)
    requires Compose(p) == Compose(q)
    ensures p == q
  {
    MatchCompose(p);
    MatchCompose(q);
  }

  /** A concrete name splits into account `123456789012`, year `2023` and month `07`. */
  lemma MatchExample()
    ensures Match("aws-reconciler-production-123456789012-2023-07")
         == Some(NameParts("123456789012", "2023", "07"))
  {
    var p := NameParts("123456789012", "2023", "07");
    assert Compose(p) == "aws-reconciler-production-123456789012-2023-07";
    MatchCompose(p);
  }

  /** A composed name starts with the prefix; a well-formed one has 46 characters. */
  lemma ComposeShape(p: NameParts)
    ensures |Prefix| <= |Compose(p)| && Compose(p)[..|Prefix|] == Prefix
    ensures WellFormed(p) ==> |Compose(p)| == |Prefix| + 12 + 1 + 4 + 1 + 2 == 46
  {
    assert Compose(p) == Prefix + (p.master + "-" + p.year + "-" + p.month);
  }

  /** Every matching name is 46 characters long. */
  lemma MatchLength(name: string)
    requires Match(name).Some?
    ensures |name| == |Prefix| + 12 + 1 + 4 + 1 + 2 == 46
  {
  }

  /** A name that stops after the year (no month group) is not matched. */
  lemma NoMonthExample()
    ensures Match("aws-reconciler-production-123456789012-2023").None?
  {
    var name := "aws-reconciler-production-123456789012-2023";
    if Match(name).Some? {
      MatchLength(name);
      assert false;
    }
  }
}
