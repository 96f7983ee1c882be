/** LogLine documents, their tokens, and the character classes that the tokenizer asks Rust for. */
module LogLine {
  import opened Prelude

  /** A value; numbers are mathematical integers. */
  datatype Value =
    | Str(s: string)
    | Num(n: int)
    | Bool(b: bool)
    | List(items: seq<Value>)
    | Object(fields: seq<Field>)

  datatype Field = Field(key: string, value: Value)

  datatype Span = Span(kind: string, name: Option<string>, params: seq<Field>)

  datatype Token =
    | Identifier(id: string)
    | Text(s: string)
    | Number(n: int)
    | Boolean(b: bool)
    | Colon
    | Comma
    | LeftBrace
    | RightBrace
    | LeftBracket
    | RightBracket
    | Newline
    | End
    | Indent(width: nat)
    | Eof

  /** Rust's Unicode tables, case mapping and number conversions. */
  datatype Tables = Tables(
    alphabetic: char -> bool,
    numeric: char -> bool,
    whitespace: char -> bool,
    upper: string -> string,
    lower: string -> string,
    number: string -> Option<int>,
    show: int -> string)

  predicate Letter(c: char) {
    'a' <= c <= 'z' || 'A' <= c <= 'Z'
  }

  predicate Digit(c: char) {
    '0' <= c <= '9'
  }

  function UpperChar(c: char): char {
    if 'a' <= c <= 'z' then (c as int - 32) as char else c
  }

  function LowerChar(c: char): char {
    if 'A' <= c <= 'Z' then (c as int + 32) as char else c
  }

  function AsciiUpper(s: string): (r: string)
    ensures |r| == |s|
  {
    seq(|s|, i requires 0 <= i < |s| => UpperChar(s[i]))
  }

  function AsciiLower(s: string): (r: string)
    ensures |r| == |s|
  {
    seq(|s|, i requires 0 <= i < |s| => LowerChar(s[i]))
  }

  predicate IsAscii(s: string) {
    forall i :: 0 <= i < |s| ==> s[i] < 128 as char
  }

  /** A character that goes on an identifier. */
  predicate IdentChar(t: Tables, c: char) {
    t.alphabetic(c) || t.numeric(c) || c == '_' || c == '-'
  }

  /** The decimal digits of a number. */
  function Decimal(n: int): string
    decreases if n < 0 then 1 else 0, n
  {
    if n < 0 then "-" + DecimalNat(-n) else DecimalNat(n)
  }

  function DecimalNat(n: nat): (r: string)
    ensures r != "" && forall i :: 0 <= i < |r| ==> Digit(r[i])
  {
    if n < 10 then [('0' as int + n) as char] else DecimalNat(n / 10) + [('0' as int + n % 10) as char]
  }

  /** On ASCII the tables say what they say, and decimal integers read back. */
  ghost predicate Lawful(t: Tables) {
    && (forall c :: c < 128 as char ==> (t.alphabetic(c) <==> Letter(c)))
    && (forall c :: c < 128 as char ==> (t.numeric(c) <==> Digit(c)))
    && (forall s :: IsAscii(s) ==> t.upper(s) == AsciiUpper(s) && t.lower(s) == AsciiLower(s))
    && (forall n :: t.number(Decimal(n)) == Some(n))
  }

  /** A lower-case ASCII identifier: what a span's type and keys are. */
  predicate LowerIdent(s: string) {
    && s != "" && ('a' <= s[0] <= 'z' || s[0] == '_')
    && forall i :: 0 <= i < |s| ==> 'a' <= s[i] <= 'z' || Digit(s[i]) || s[i] == '_' || s[i] == '-'
  }

  predicate AsciiIdent(s: string) {
    && s != "" && (Letter(s[0]) || s[0] == '_')
    && forall i :: 0 <= i < |s| ==> Letter(s[i]) || Digit(s[i]) || s[i] == '_' || s[i] == '-'
  }

  /** Not one of the words that the tokenizer takes out of the identifiers. */
  predicate NotKeyword(s: string) {
    AsciiUpper(s) != "END" && AsciiUpper(s) != "TRUE" && AsciiUpper(s) != "FALSE"
  }
}
