/** The serializer of logline/src/serializer.rs. */
module LogLinePrinter {
  import opened Prelude
  import opened LogLine

  datatype Options = Options(indent: string, uppercase: bool, quote: bool)

  /** `base_indent.repeat(depth)`. */
  function Margin(o: Options, depth: nat): string {
    if depth == 0 then "" else o.indent + Margin(o, depth - 1)
  }

  predicate Special(c: char) {
    || c == '"' || c == '\\' || c == '\n' || c == '\r' || c == '\t'
    || c == '{' || c == '}' || c == '[' || c == ']' || c == ','
  }

  predicate NeedsQuoting(s: string) {
    s == "" || exists i :: 0 <= i < |s| && Special(s[i])
  }

  function EscapeChar(c: char): string {
    if c == '"' then "\\\"" else if c == '\\' then "\\\\" else if c == '\n' then "\\n"
    else if c == '\r' then "\\r" else if c == '\t' then "\\t" else [c]
  }

  function Escape(s: string): string {
    if s == "" then "" else EscapeChar(s[0]) + Escape(s[1..])
  }

  function Quoted(s: string): string {
    "\"" + (Escape(s) + "\"")
  }

  /** A type or key as it is printed. */
  function Cased(t: Tables, o: Options, word: string): string {
    if o.uppercase then t.upper(word) else word
  }

  /** `serialize_value`, at a nesting depth that only indentation depends on. */
  function ValueText(t: Tables, o: Options, v: Value, depth: nat): string
    decreases v
  {
    match v
    case Str(s) => if o.quote || NeedsQuoting(s) then Quoted(s) else s
    case Num(n) => Decimal(n)
    case Bool(b) => if b then "true" else "false"
    case List(items) => "[" + (ItemsText(t, o, items, depth + 1) + "]")
    case Object(fields) => "{\n" + (FieldsText(t, o, fields, depth + 1) + (Margin(o, depth) + "}"))
  }

  function ItemsText(t: Tables, o: Options, items: seq<Value>, depth: nat): string
    decreases items
  {
    if items == [] then ""
    else ValueText(t, o, items[0], depth) + (if |items| == 1 then "" else ", " + ItemsText(t, o, items[1..], depth))
  }

  /** Lines `KEY: value`, each indented by the depth. */
  function FieldsText(t: Tables, o: Options, fields: seq<Field>, depth: nat): string
    decreases fields
  {
    if fields == [] then "" else FieldText(t, o, fields[0], depth) + FieldsText(t, o, fields[1..], depth)
  }

  function FieldText(t: Tables, o: Options, f: Field, depth: nat): string
    decreases f
  {
    Margin(o, depth) + (Cased(t, o, f.key) + (": " + (ValueText(t, o, f.value, depth) + "\n")))
  }

  function NameText(name: Option<string>): string {
    match name
    case None => ""
    case Some(s) => " " + (if NeedsQuoting(s) then Quoted(s) else s)
  }

  /** `serialize_with_options`. */
  function Serialize(t: Tables, o: Options, span: Span): string {
    Cased(t, o, span.kind) + (":" + (NameText(span.name) + ("\n" + (FieldsText(t, o, span.params, 1) + "END"))))
  }

  /** Without quoting, the text "true" prints as the boolean does: the two spans cannot be told apart. */
  lemma UnquotedTextCollides(t: Tables, o: Options, kind: string, key: string)
    requires !o.quote
    ensures Serialize(t, o, Span(kind, None, [Field(key, Str("true"))])) == Serialize(t, o, Span(kind, None, [Field(key, Bool(true))]))
  {
    assert !NeedsQuoting("true");
    assert ValueText(t, o, Str("true"), 1) == ValueText(t, o, Bool(true), 1);
    assert FieldsText(t, o, [Field(key, Str("true"))], 1) == FieldsText(t, o, [Field(key, Bool(true))], 1);
  }

  /** An ASCII word as it stands, or with its small letters made capital. */
  ghost predicate PrintedAs(uppercase: bool, word: string, printed: string) {
    |printed| == |word| && forall i :: 0 <= i < |word| ==>
      printed[i] == if uppercase && 'a' <= word[i] <= 'z' then (word[i] as int - 32) as char else word[i]
  }

  /** The type opens the text and every key its line, behind the margin, in capitals exactly when asked for. */
  lemma KeywordsAreCased(t: Tables, o: Options, span: Span, f: Field, depth: nat)
    requires Lawful(t) && IsAscii(span.kind) && IsAscii(f.key)
    ensures var text, n := Serialize(t, o, span), |span.kind|;
            |text| > n && PrintedAs(o.uppercase, span.kind, text[..n]) && text[n] == ':'
    ensures var line, m, n := FieldText(t, o, f, depth), |Margin(o, depth)|, |f.key|;
            |line| > m + n && line[..m] == Margin(o, depth) && PrintedAs(o.uppercase, f.key, line[m..m + n]) && line[m + n] == ':'
  {
    hide FieldsText, ValueText, NameText, Margin;
    assert Serialize(t, o, span)[..|span.kind|] == Cased(t, o, span.kind);
    var line, m, n := FieldText(t, o, f, depth), |Margin(o, depth)|, |f.key|;
    assert line[m..m + n] == Cased(t, o, f.key);
  }

  /** The margin is the indentation as often as the depth says. */
  lemma {:induction false} MarginRepeats(o: Options, depth: nat)
    ensures |Margin(o, depth)| == depth * |o.indent|
    ensures depth > 0 ==> Margin(o, depth) == Margin(o, depth - 1) + o.indent
  {
    if depth > 1 {
      MarginRepeats(o, depth - 1);
      assert Margin(o, depth) == o.indent + (Margin(o, depth - 2) + o.indent);
    } else if depth == 1 {
      assert Margin(o, 1) == o.indent + "" == "" + o.indent;
    }
  }

  // ---------------------------------------------------------------- pushing onto an output string

  class Output {
    var text: string

    constructor ()
      ensures text == ""
    {
      text := "";
    }

    method Push(s: string)
      modifies this
      ensures text == old(text) + s
    {
      text := text + s;
    }
  }

  method EscapeString(s: string) returns (result: string)
    ensures result == Escape(s)
  {
    result := "";
    for i := 0 to |s|
      invariant result + Escape(s[i..]) == Escape(s)
    {
      assert s[i..][1..] == s[i + 1..];
      assert result + (EscapeChar(s[i]) + Escape(s[i + 1..])) == result + EscapeChar(s[i]) + Escape(s[i + 1..]);
      result := result + EscapeChar(s[i]);
    }
  }

  method PushQuoted(out: Output, s: string)
    modifies out
    ensures out.text == old(out.text) + Quoted(s)
  {
    var body := EscapeString(s);
    out.Push("\"");
    out.Push(body);
    out.Push("\"");
  }

  method PushValue(out: Output, t: Tables, o: Options, v: Value, depth: nat)
    modifies out
    ensures out.text == old(out.text) + ValueText(t, o, v, depth)
    decreases v, 1
  {
    hide ItemsText, FieldsText, Quoted, Decimal, NeedsQuoting, Margin;
    match v
    case Str(s) =>
      if o.quote || NeedsQuoting(s) {
        PushQuoted(out, s);
      } else {
        out.Push(s);
      }
    case Num(n) => out.Push(Decimal(n));
    case Bool(b) => out.Push(if b then "true" else "false");
    case List(items) => PushList(out, t, o, items, depth);
    case Object(fields) => PushObject(out, t, o, fields, depth);
  }

  method PushList(out: Output, t: Tables, o: Options, items: seq<Value>, depth: nat)
    modifies out
    ensures out.text == old(out.text) + ValueText(t, o, List(items), depth)
    decreases items, 1
  {
    hide ItemsText;
    out.Push("[");
    PushItems(out, t, o, items, depth + 1);
    out.Push("]");
  }

  method PushObject(out: Output, t: Tables, o: Options, fields: seq<Field>, depth: nat)
    modifies out
    ensures out.text == old(out.text) + ValueText(t, o, Object(fields), depth)
    decreases fields, 1
  {
    hide FieldsText, Margin;
    out.Push("{\n");
    PushFields(out, t, o, fields, depth + 1);
    out.Push(Margin(o, depth));
    out.Push("}");
    assert out.text == old(out.text) + ("{\n" + (FieldsText(t, o, fields, depth + 1) + (Margin(o, depth) + "}")));
  }

  method PushItems(out: Output, t: Tables, o: Options, items: seq<Value>, depth: nat)
    modifies out
    ensures out.text == old(out.text) + ItemsText(t, o, items, depth)
    decreases items, 0
  {
    hide ValueText;
    for i := 0 to |items|
      invariant out.text + SeparatedItems(t, o, items, i, depth) == old(out.text) + ItemsText(t, o, items, depth)
    {
      ghost var before := out.text;
      if i > 0 { out.Push(", "); }
      PushValue(out, t, o, items[i], depth);
      assert items[i..][1..] == items[i + 1..];
      assert before + ((if i > 0 then ", " else "") + (ValueText(t, o, items[i], depth) + SeparatedItems(t, o, items, i + 1, depth)))
          == out.text + SeparatedItems(t, o, items, i + 1, depth);
    }
  }

  /** The items from `i` on, with the separator in front of any but the first of all. */
  ghost function SeparatedItems(t: Tables, o: Options, items: seq<Value>, i: nat, depth: nat): string
    requires i <= |items|
  {
    if i == |items| then "" else (if i > 0 then ", " else "") + ItemsText(t, o, items[i..], depth)
  }

  method PushField(out: Output, t: Tables, o: Options, f: Field, depth: nat)
    modifies out
    ensures out.text == old(out.text) + FieldText(t, o, f, depth)
    decreases f, 2
  {
    hide ValueText, Margin;
    out.Push(Margin(o, depth));
    out.Push(Cased(t, o, f.key));
    out.Push(": ");
    PushValue(out, t, o, f.value, depth);
    out.Push("\n");
  }

  method PushFields(out: Output, t: Tables, o: Options, fields: seq<Field>, depth: nat)
    modifies out
    ensures out.text == old(out.text) + FieldsText(t, o, fields, depth)
    decreases fields, 0
  {
    hide FieldText;
    for i := 0 to |fields|
      invariant out.text + FieldsText(t, o, fields[i..], depth) == old(out.text) + FieldsText(t, o, fields, depth)
    {
      assert fields[i..][1..] == fields[i + 1..];
      ghost var before := out.text;
      PushField(out, t, o, fields[i], depth);
      assert before + (FieldText(t, o, fields[i], depth) + FieldsText(t, o, fields[i + 1..], depth))
          == out.text + FieldsText(t, o, fields[i + 1..], depth);
    }
  }

  method PushName(out: Output, name: Option<string>)
    modifies out
    ensures out.text == old(out.text) + NameText(name)
  {
    hide NeedsQuoting, Quoted;
    if name.Some? {
      out.Push(" ");
      if NeedsQuoting(name.value) {
        PushQuoted(out, name.value);
      } else {
        out.Push(name.value);
      }
    }
  }

  method SerializeSpan(t: Tables, o: Options, span: Span) returns (text: string)
    ensures text == Serialize(t, o, span)
  {
    hide FieldsText, NameText, Cased;
    var out := new Output();
    out.Push(Cased(t, o, span.kind));
    out.Push(":");
    PushName(out, span.name);
    out.Push("\n");
    PushFields(out, t, o, span.params, 1);
    out.Push("END");
    text := out.text;
  }
}
