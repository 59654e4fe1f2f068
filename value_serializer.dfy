/**
 * The type inferencer (`jsontype2sqltype`) and the value serializer
 * (`write_db_value`), with the reading of a serialized literal back out of
 * statement text.
 */
module ValueSerializer {

  import opened Wrappers
  import opened JsonValues
  import opened SqlText

  /**
   * The foreign routines the serializer and the decoder call, which are not
   * part of this model: C's fixed-point formatting, the JSON library's
   * compact dump and the buffer-to-JSON parser.
   */
  datatype Externals = Externals(
    fixedNoDecimals: real -> string,           // printf "%.f"
    fixedSixDecimals: real -> string,          // printf "%f"
    dumpCompact: Value -> string,              // json_dumps(JSON_ENCODE_ANY|JSON_COMPACT)
    parseBuffer: seq<byte> -> Option<Value>)   // nonlegalbuffer2json

  const ColumnTypes: set<string> := {"TEXT", "INTEGER", "REAL", "BLOB"}

  /**
   * `jsontype2sqltype`: total, never null, one of the four column types;
   * strings, integers and reals each have their own type and every other
   * kind is stored as BLOB.
   */
  function JsonTypeToSqlType(v: Value): (t: string)
    ensures t in ColumnTypes
    ensures t == "TEXT" <==> v.Str?
    ensures t == "INTEGER" <==> v.Int?
    ensures t == "REAL" <==> v.Real?
    ensures t == "BLOB" <==> (v.True? || v.False? || v.Null? || v.Array? || v.Object?)
  {
    if v.Str? then "TEXT"
    else if v.Int? then "INTEGER"
    else if v.Real? then "REAL"
    else "BLOB"
  }

  /** The literal the serializer writes for one value. */
  function ValueLiteral(v: Value, ext: Externals): string
  {
    match v
    case Str(s) => QuotedLiteral(s)
    case Int(i) => Decimal(i as int)
    case Real(r) => ext.fixedNoDecimals(r)
    case True => "1"
    case False => "0"
    case Null => "0"
    case Array(_) => QuotedLiteral(ext.dumpCompact(v))
    case Object(_) => QuotedLiteral(ext.dumpCompact(v))
  }

  /**
   * `write_db_value`: appends the literal of `value` to the statement being
   * built. Every kind of the closed JSON variant is handled, so the status
   * is always 0 and the error branch of the source cannot be taken.
   */
  method WriteDbValue(script: string, value: Value, ext: Externals) returns (out: string, ret: int)
    ensures out == script + ValueLiteral(value, ext)
    ensures ret == 0
  {
    out := script;
    if value.Str? {
      var sq := Escape(value.s);
      out := out + [Quote] + sq + [Quote];
    } else if value.Int? {
      out := out + Decimal(value.i as int);
    } else if value.Real? {
      out := out + ext.fixedNoDecimals(value.r);
    } else if value.True? {
      out := out + "1";
    } else if value.False? {
      out := out + "0";
    } else if value.Null? {
      out := out + "0";
    } else {
      var s := ext.dumpCompact(value);
      var sq := Escape(s);
      out := out + [Quote] + sq + [Quote];
    }
    ret := 0;
  }

  // ---------------------------------------------------------------------
  // Reading a literal back

  /** A literal as statement text is read: quoted text, or a bare word such as a number. */
  datatype Literal = QuotedText(content: string) | Bare(text: string)

  /** The characters that end a bare literal inside a VALUES list. */
  predicate IsDelimiter(c: char)
  {
    c == Quote || c == ',' || c == ')'
  }

  /** A nonempty word without delimiters. */
  predicate IsBareText(b: string)
  {
    |b| > 0 && forall i :: 0 <= i < |b| ==> !IsDelimiter(b[i])
  }

  /** What formatting a real with `%.f` produces: digits, a sign, or the words for infinities. */
  ghost predicate PrintsBareReals(ext: Externals)
  {
    forall r: real :: IsBareText(ext.fixedNoDecimals(r))
  }

  function BareLength(t: string): (n: nat)
    ensures n <= |t|
  {
    if t == [] || IsDelimiter(t[0]) then 0 else 1 + BareLength(t[1..])
  }

  /** Reads one literal from the front of `t` and returns it with the text after it. */
  function ReadLiteral(t: string): (o: Option<(Literal, string)>)
    ensures o.Some? ==> |o.value.1| < |t|
  {
    if |t| > 0 && t[0] == Quote then
      match ReadQuoted(t[1..])
      case None => None
      case Some(p) => Some((QuotedText(p.0), p.1))
    else
      var n := BareLength(t);
      if n == 0 then None else Some((Bare(t[..n]), t[n..]))
  }

  /** The literal each kind of value must read back as. */
  function LiteralOf(v: Value, ext: Externals): Literal
  {
    match v
    case Str(s) => QuotedText(s)
    case Int(i) => Bare(Decimal(i as int))
    case Real(r) => Bare(ext.fixedNoDecimals(r))
    case True => Bare("1")
    case False => Bare("0")
    case Null => Bare("0")
    case Array(_) => QuotedText(ext.dumpCompact(v))
    case Object(_) => QuotedText(ext.dumpCompact(v))
  }

  /** A text that starts with the comma or parenthesis closing a list item. */
  predicate StartsAfterItem(rest: string)
  {
    |rest| > 0 && (rest[0] == ',' || rest[0] == ')')
  }

  lemma {:induction false} BareLengthOf(b: string, rest: string)
    requires forall i :: 0 <= i < |b| ==> !IsDelimiter(b[i])
    requires StartsAfterItem(rest)
    ensures BareLength(b + rest) == |b|
  {
    if b == [] {
      assert b + rest == rest;
    } else {
      assert (b + rest)[1..] == b[1..] + rest;
      BareLengthOf(b[1..], rest);
    }
  }

  lemma ReadBare(b: string, rest: string)
    requires IsBareText(b)
    requires StartsAfterItem(rest)
    ensures ReadLiteral(b + rest) == Some((Bare(b), rest))
  {
    BareLengthOf(b, rest);
    assert (b + rest)[..|b|] == b && (b + rest)[|b|..] == rest;
  }

  lemma ReadQuotedText(s: string, rest: string)
    requires StartsAfterItem(rest)
    ensures ReadLiteral(QuotedLiteral(s) + rest) == Some((QuotedText(s), rest))
  {
    ReadQuotedLiteral(s, rest);
    assert (QuotedLiteral(s) + rest)[1..] == Escape(s) + [Quote] + rest;
  }

  /**
   * Every serialized value reads back as one literal that ends exactly where
   * the serializer stopped: a string (or a dumped array or object) as its
   * own content, whatever quotes it holds; an integer as its decimal text;
   * booleans and null as `1` and `0`.
   */
  lemma ReadValueLiteral(v: Value, ext: Externals, rest: string)
    requires PrintsBareReals(ext)
    requires StartsAfterItem(rest)
    ensures ReadLiteral(ValueLiteral(v, ext) + rest) == Some((LiteralOf(v, ext), rest))
  {
    match v
    case Str(s) => ReadQuotedText(s, rest);
    case Int(i) =>
      DecimalCharacters(i as int);
      ReadBare(Decimal(i as int), rest);
    case Real(r) => ReadBare(ext.fixedNoDecimals(r), rest);
    case True => ReadBare("1", rest);
    case False => ReadBare("0", rest);
    case Null => ReadBare("0", rest);
    case Array(_) => ReadQuotedText(ext.dumpCompact(v), rest);
    case Object(_) => ReadQuotedText(ext.dumpCompact(v), rest);
  }

  /** An integer literal parses back to the integer it was written for. */
  lemma IntegerLiteralRoundTrip(i: int64, ext: Externals)
    ensures ParseDecimal(ValueLiteral(Int(i), ext)) == Some(i as int)
  {
    DecimalRoundTrip(i as int);
  }
}
