/**
 * Text pieces shared by every statement: SQLite's `%q` quoting of a string
 * literal's content, the reading of a quoted literal back out of statement
 * text, decimal printing of integers (`%lld`) with its parser, and joining
 * a list of parts with a separator as the separator counters of the
 * builders do.
 */
module SqlText {

  import opened Wrappers

  const Quote: char := '\''

  // ---------------------------------------------------------------------
  // %q quoting

  /** `sqlite3_mprintf("%q", s)`: every single quote is doubled, nothing else changes. */
  function Escape(s: string): (e: string)
    ensures |e| >= |s|
  {
    if s == [] then []
    else (if s[0] == Quote then [Quote, Quote] else [s[0]]) + Escape(s[1..])
  }

  /** The quoted literal `'`s`'` that the serializer writes for the content `s`. */
  function QuotedLiteral(s: string): string
  {
    [Quote] + Escape(s) + [Quote]
  }

  /**
   * How SQL reads the inside of a string literal, after its opening quote:
   * a doubled quote stands for one quote character, a lone quote closes the
   * literal. Returns the content and the text after the closing quote, or
   * None when the text ends before the literal is closed.
   */
  function ReadQuoted(t: string): (o: Option<(string, string)>)
    ensures o.Some? ==> |o.value.1| < |t|
    decreases |t|
  {
    if t == [] then None
    else if t[0] == Quote then
      if |t| > 1 && t[1] == Quote then
        match ReadQuoted(t[2..])
        case None => None
        case Some(p) => Some(([Quote] + p.0, p.1))
      else Some(([], t[1..]))
    else
      match ReadQuoted(t[1..])
      case None => None
      case Some(p) => Some(([t[0]] + p.0, p.1))
  }

  /** A text that cannot be read as the continuation of a doubled quote. */
  predicate NotQuoteStart(rest: string)
  {
    rest == [] || rest[0] != Quote
  }

  /**
   * Injection safety of `%q`: whatever `s` holds, the literal written for it
   * is read back as exactly `s`, and the literal ends exactly where the
   * serializer closed it, so nothing of `s` leaks into the statement.
   */
  lemma {:induction false} ReadEscaped(s: string, rest: string)
    requires NotQuoteStart(rest)
    ensures ReadQuoted(Escape(s) + [Quote] + rest) == Some((s, rest))
  {
    if s == [] {
      assert Escape(s) + [Quote] + rest == [Quote] + rest;
    } else {
      ReadEscaped(s[1..], rest);
      var tail := Escape(s[1..]) + [Quote] + rest;
      var head := if s[0] == Quote then [Quote, Quote] else [s[0]];
      assert Escape(s) == head + Escape(s[1..]);
      assert head + Escape(s[1..]) + [Quote] + rest == head + (Escape(s[1..]) + [Quote] + rest);
      if s[0] == Quote {
        ReadDoubledQuote(tail);
      } else {
        ReadPlainChar(s[0], tail);
      }
      assert [s[0]] + s[1..] == s;
    }
  }

  /** A doubled quote inside a literal reads as one quote character. */
  lemma ReadDoubledQuote(tail: string)
    ensures ReadQuoted([Quote, Quote] + tail) ==
      match ReadQuoted(tail)
      case None => None
      case Some(p) => Some(([Quote] + p.0, p.1))
  {
    assert ([Quote, Quote] + tail)[2..] == tail;
  }

  /** Any other character inside a literal reads as itself. */
  lemma ReadPlainChar(c: char, tail: string)
    requires c != Quote
    ensures ReadQuoted([c] + tail) ==
      match ReadQuoted(tail)
      case None => None
      case Some(p) => Some(([c] + p.0, p.1))
  {
    assert ([c] + tail)[1..] == tail;
  }

  /** A whole literal followed by text that does not start with a quote. */
  lemma ReadQuotedLiteral(s: string, rest: string)
    requires NotQuoteStart(rest)
    ensures QuotedLiteral(s) + rest == [Quote] + (Escape(s) + [Quote] + rest)
    ensures ReadQuoted(Escape(s) + [Quote] + rest) == Some((s, rest))
  {
    assert [Quote] + Escape(s) + [Quote] + rest == [Quote] + (Escape(s) + [Quote] + rest);
    ReadEscaped(s, rest);
  }

  /** The quote count of a text. */
  function Quotes(s: string): nat
  {
    if s == [] then 0 else (if s[0] == Quote then 1 else 0) + Quotes(s[1..])
  }

  /** Quoting adds exactly one character per quote, and the quoted text holds twice as many quotes. */
  lemma {:induction false} EscapeLength(s: string)
    ensures |Escape(s)| == |s| + Quotes(s)
    ensures Quotes(Escape(s)) == 2 * Quotes(s)
  {
    if s != [] {
      EscapeLength(s[1..]);
      var head := if s[0] == Quote then [Quote, Quote] else [s[0]];
      QuotesAppend(head, Escape(s[1..]));
    }
  }

  lemma {:induction false} QuotesAppend(a: string, b: string)
    ensures Quotes(a + b) == Quotes(a) + Quotes(b)
  {
    if a != [] {
      assert (a + b)[0] == a[0];
      assert (a + b)[1..] == a[1..] + b;
      QuotesAppend(a[1..], b);
    } else {
      assert a + b == b;
    }
  }

  /** A text without quotes is left as it is. */
  lemma {:induction false} EscapeNoQuotes(s: string)
    requires Quote !in s
    ensures Escape(s) == s
  {
    if s != [] {
      EscapeNoQuotes(s[1..]);
      assert [s[0]] + s[1..] == s;
    }
  }

  // ---------------------------------------------------------------------
  // Decimal integers (%lld)

  function DigitChar(d: nat): char
    requires d < 10
  {
    ('0' as int + d) as char
  }

  predicate IsDigit(c: char)
  {
    '0' <= c <= '9'
  }

  /** The decimal digits of a natural number, without leading zeros. */
  function NatDigits(n: nat): (ds: string)
    decreases n
  {
    if n < 10 then [DigitChar(n)] else NatDigits(n / 10) + [DigitChar(n % 10)]
  }

  /** `printf("%lld", n)`. */
  function Decimal(n: int): string
  {
    if n < 0 then "-" + NatDigits(-n) else NatDigits(n)
  }

  /** The value of a string of decimal digits. */
  function DigitsValue(s: string): nat
    requires forall i :: 0 <= i < |s| ==> IsDigit(s[i])
    decreases |s|
  {
    if s == [] then 0
    else DigitsValue(s[..|s| - 1]) * 10 + DigitValue(s[|s| - 1])
  }

  function DigitValue(c: char): nat
    requires IsDigit(c)
  {
    c as int - '0' as int
  }

  /** Reads a decimal integer with an optional minus sign; None for anything else. */
  function ParseDecimal(s: string): Option<int>
  {
    if |s| > 0 && s[0] == '-' then
      if |s| > 1 && forall i :: 1 <= i < |s| ==> IsDigit(s[i]) then
        var v: int := -(DigitsValue(s[1..]) as int); Some(v)
      else None
    else if |s| > 0 && forall i :: 0 <= i < |s| ==> IsDigit(s[i]) then Some(DigitsValue(s))
    else None
  }

  lemma {:induction false} NatDigitsRoundTrip(n: nat)
    ensures |NatDigits(n)| > 0
    ensures forall i :: 0 <= i < |NatDigits(n)| ==> IsDigit(NatDigits(n)[i])
    ensures DigitsValue(NatDigits(n)) == n
  {
    if n >= 10 {
      NatDigitsRoundTrip(n / 10);
      var ds := NatDigits(n);
      assert ds[..|ds| - 1] == NatDigits(n / 10);
    }
  }

  /** Decimal printing is undone by decimal parsing. */
  lemma DecimalRoundTrip(n: int)
    ensures ParseDecimal(Decimal(n)) == Some(n)
  {
    if n < 0 {
      NatDigitsRoundTrip(-n);
      assert ("-" + NatDigits(-n))[1..] == NatDigits(-n);
    } else {
      NatDigitsRoundTrip(n);
    }
  }

  /** A decimal holds only a minus sign and digits: no quote, comma, parenthesis or blank. */
  lemma DecimalCharacters(n: int)
    ensures |Decimal(n)| > 0
    ensures forall i :: 0 <= i < |Decimal(n)| ==> Decimal(n)[i] == '-' || IsDigit(Decimal(n)[i])
  {
    if n < 0 { NatDigitsRoundTrip(-n); } else { NatDigitsRoundTrip(n); }
  }

  // ---------------------------------------------------------------------
  // Joining with a separator

  /**
   * The parts with `sep` between consecutive ones; this is what a builder
   * loop writes when it emits `sep` before every part but the first.
   */
  function Join(sep: string, parts: seq<string>): string
    decreases |parts|
  {
    if |parts| == 0 then []
    else if |parts| == 1 then parts[0]
    else Join(sep, parts[..|parts| - 1]) + sep + parts[|parts| - 1]
  }

  /** One more part: what the loop body appends, with the separator emitted when the counter is positive. */
  lemma JoinSnoc(sep: string, parts: seq<string>, i: nat)
    requires i < |parts|
    ensures Join(sep, parts[..i + 1]) == Join(sep, parts[..i]) + (if i > 0 then sep else []) + parts[i]
  {
    assert parts[..i + 1][..i] == parts[..i];
  }

  /** The same step with a fixed text in front, as a builder's buffer holds it. */
  lemma AppendPart(head: string, sep: string, parts: seq<string>, i: nat)
    requires i < |parts|
    ensures head + Join(sep, parts[..i + 1]) == head + Join(sep, parts[..i]) + (if i > 0 then sep else []) + parts[i]
  {
    JoinSnoc(sep, parts, i);
  }

  /** Joining read from the front: the first part, then the separator and the rest. */
  lemma {:induction false} JoinCons(sep: string, head: string, tail: seq<string>)
    requires |tail| > 0
    ensures Join(sep, [head] + tail) == head + sep + Join(sep, tail)
    decreases |tail|
  {
    var parts := [head] + tail;
    if |tail| == 1 {
      assert parts[..1] == [head];
    } else {
      assert parts[..|parts| - 1] == [head] + tail[..|tail| - 1];
      JoinCons(sep, head, tail[..|tail| - 1]);
      assert parts[|parts| - 1] == tail[|tail| - 1];
    }
  }

  /** The same with text after the joined parts, grouped as a reader takes it apart. */
  lemma JoinConsRest(sep: string, head: string, tail: seq<string>, rest: string)
    requires |tail| > 0
    ensures Join(sep, [head] + tail) + rest == head + (sep + (Join(sep, tail) + rest))
  {
    JoinCons(sep, head, tail);
    assert head + sep + Join(sep, tail) + rest == head + (sep + Join(sep, tail) + rest);
  }
}
