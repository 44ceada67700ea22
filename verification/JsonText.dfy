/**
 Plain JSON values and the text JSON.stringify prints for them, with the string escapes of section 7 of
 RFC 8259. The text determines the value.
 */
module JsonText {

  // A plain JavaScript value. A number is the literal JSON.stringify prints for it.
  datatype Json =
    | Undefined
    | Null
    | Bool(b: bool)
    | Num(literal: string)
    | Str(text: string)
    | Arr(items: seq<Json>)
    | Obj(fields: seq<Field>)

  datatype Field = Field(key: string, value: Json)

  predicate NumericChar(c: char) {
    '0' <= c <= '9' || c == '-' || c == '+' || c == '.' || c == 'e' || c == 'E'
  }

  predicate NumericLiteral(s: string) {
    s != "" && forall c :: c in s ==> NumericChar(c)
  }

  function HexDigit(n: nat): char
    requires n < 16
  {
    if n < 10 then ('0' as int + n) as char else ('a' as int + (n - 10)) as char
  }

  function EscapeChar(c: char): string {
    if c == '"' then "\\\""
    else if c == '\\' then "\\\\"
    else if c == '\U{0008}' then "\\b"
    else if c == '\U{000C}' then "\\f"
    else if c == '\n' then "\\n"
    else if c == '\r' then "\\r"
    else if c == '\t' then "\\t"
    else if c < ' ' then "\\u00" + [HexDigit(c as int / 16), HexDigit(c as int % 16)]
    else [c]
  }

  function EscapeAll(s: string): string {
    if s == "" then "" else EscapeChar(s[0]) + EscapeAll(s[1..])
  }

  function Quote(s: string): string {
    "\"" + EscapeAll(s) + "\""
  }

  // The text of a value in which nothing is undefined.
  function Text(v: Json): string
    decreases v, 0
  {
    match v
    case Undefined => ""
    case Null => "null"
    case Bool(b) => if b then "true" else "false"
    case Num(literal) => literal
    case Str(text) => Quote(text)
    case Arr(items) => if items == [] then "[]" else "[" + Text(items[0]) + ItemsTail(items[1..])
    case Obj(fields) => if fields == [] then "{}" else "{" + FieldText(fields[0]) + FieldsTail(fields[1..])
  }

  function FieldText(f: Field): string
    decreases f, 1
  {
    Quote(f.key) + ":" + Text(f.value)
  }

  function ItemsTail(items: seq<Json>): string
    decreases items, 0
  {
    if items == [] then "]" else "," + Text(items[0]) + ItemsTail(items[1..])
  }

  function FieldsTail(fields: seq<Field>): string
    decreases fields, 0
  {
    if fields == [] then "}" else "," + FieldText(fields[0]) + FieldsTail(fields[1..])
  }

  // A value with a text: nothing undefined, and every number a numeric literal.
  ghost predicate Printable(v: Json)
    decreases v
  {
    match v
    case Undefined => false
    case Num(literal) => NumericLiteral(literal)
    case Arr(items) => forall i :: 0 <= i < |items| ==> Printable(items[i])
    case Obj(fields) => forall i :: 0 <= i < |fields| ==> Printable(fields[i].value)
    case _ => true
  }

  // ----- strings

  // The character an escaped text begins with, and the length of its escape.
  function FirstChar(t: string): (char, nat) {
    if |t| == 0 then (' ', 0)
    else if t[0] != '\\' then (t[0], 1)
    else if |t| == 1 then (' ', 0)
    else if t[1] == '"' then ('"', 2)
    else if t[1] == '\\' then ('\\', 2)
    else if t[1] == 'b' then ('\U{0008}', 2)
    else if t[1] == 'f' then ('\U{000C}', 2)
    else if t[1] == 'n' then ('\n', 2)
    else if t[1] == 'r' then ('\r', 2)
    else if t[1] == 't' then ('\t', 2)
    else if |t| < 6 then (' ', 0)
    else ((HexValue(t[4]) * 16 + HexValue(t[5])) as char, 6)
  }

  function HexValue(c: char): nat {
    if '0' <= c <= '9' then c as int - '0' as int
    else if 'a' <= c <= 'f' then c as int - 'a' as int + 10
    else 0
  }

  lemma Assoc(a: string, b: string, c: string)
    ensures (a + b) + c == a + (b + c)
  {
  }

  lemma Assoc3(a: string, b: string, c: string, d: string)
    ensures (a + b + c) + d == a + (b + (c + d))
  {
    Assoc(a + b, c, d);
    Assoc(a, b, c + d);
  }

  lemma HeadOf(a: string, b: string)
    requires a != ""
    ensures a + b != "" && (a + b)[0] == a[0]
  {
  }

  // Reading back an escaped character.
  lemma FirstCharOfEscape(c: char, rest: string)
    ensures FirstChar(EscapeChar(c) + rest) == (c, |EscapeChar(c)|)
    ensures |EscapeChar(c)| > 0 && EscapeChar(c)[0] != '"'
    ensures '\n' !in EscapeChar(c)
  {
    var t := EscapeChar(c) + rest;
    assert forall i :: 0 <= i < |EscapeChar(c)| ==> t[i] == EscapeChar(c)[i];
  }

  lemma SamePrefix(a: string, s: string, t: string)
    requires a + s == a + t
    ensures s == t
  {
    assert s == (a + s)[|a|..] && t == (a + t)[|a|..];
  }

  lemma SameLength(a: string, s: string, b: string, t: string)
    requires a + s == b + t && |a| == |b|
    ensures a == b && s == t
  {
    assert a == (a + s)[..|a|] && b == (b + t)[..|b|];
    assert s == (a + s)[|a|..] && t == (b + t)[|b|..];
  }

  lemma EscapeUnique(c: char, s: string, d: char, t: string)
    requires EscapeChar(c) + s == EscapeChar(d) + t
    ensures c == d && s == t
  {
    FirstCharOfEscape(c, s);
    FirstCharOfEscape(d, t);
    SamePrefix(EscapeChar(c), s, t);
  }

  // An escaped text that is not empty begins with its first escape, which is no quote.
  lemma EscapedHead(a: string, q: string)
    requires a != ""
    ensures EscapeAll(a) + q == EscapeChar(a[0]) + (EscapeAll(a[1..]) + q)
    ensures EscapeAll(a) + q != "" && (EscapeAll(a) + q)[0] != '"'
  {
    FirstCharOfEscape(a[0], "");
    Assoc(EscapeChar(a[0]), EscapeAll(a[1..]), q);
    HeadOf(EscapeChar(a[0]), EscapeAll(a[1..]) + q);
  }

  // An escaped text ends at its closing quote, and determines the text.
  lemma {:induction false} QuotedTextUnique(a: string, q: string, b: string, r: string)
    requires q != "" && r != "" && q[0] == '"' && r[0] == '"'
    requires EscapeAll(a) + q == EscapeAll(b) + r
    ensures a == b && q == r
    decreases |a|
  {
    if a == "" || b == "" {
      if a != "" { EscapedHead(a, q); }
      if b != "" { EscapedHead(b, r); }
      assert EscapeAll("") + q == q && EscapeAll("") + r == r;
    } else {
      EscapedHead(a, q);
      EscapedHead(b, r);
      EscapeUnique(a[0], EscapeAll(a[1..]) + q, b[0], EscapeAll(b[1..]) + r);
      QuotedTextUnique(a[1..], q, b[1..], r);
      assert a == [a[0]] + a[1..] && b == [b[0]] + b[1..];
    }
  }

  lemma QuoteUnique(a: string, s: string, b: string, t: string)
    requires Quote(a) + s == Quote(b) + t
    ensures a == b && s == t
  {
    var q := "\"";
    Assoc3(q, EscapeAll(a), q, s);
    Assoc3(q, EscapeAll(b), q, t);
    SamePrefix(q, EscapeAll(a) + (q + s), EscapeAll(b) + (q + t));
    HeadOf(q, s);
    HeadOf(q, t);
    QuotedTextUnique(a, q + s, b, q + t);
    SamePrefix(q, s, t);
  }

  // ----- numbers

  // What may follow a value: nothing, a comma or a closing bracket.
  ghost predicate Closes(s: string) {
    s == "" || s[0] == ',' || s[0] == ']' || s[0] == '}'
  }

  lemma CharAt(a: string, s: string, i: nat)
    requires i < |a + s|
    ensures i < |a| ==> (a + s)[i] in a
    ensures i == |a| && Closes(s) ==> !NumericChar((a + s)[i])
  {
  }

  lemma NumberUnique(a: string, s: string, b: string, t: string)
    requires NumericLiteral(a) && NumericLiteral(b) && Closes(s) && Closes(t) && a + s == b + t
    ensures a == b && s == t
  {
    if |a| < |b| {
      CharAt(a, s, |a|);
      CharAt(b, t, |a|);
    } else if |b| < |a| {
      CharAt(a, s, |b|);
      CharAt(b, t, |b|);
    }
    SameLength(a, s, b, t);
  }

  // ----- values

  // The first character of a text tells the kind of the value.
  lemma TextHead(v: Json)
    requires Printable(v)
    ensures Text(v) != ""
    ensures var c := Text(v)[0];
      && c != ']' && c != '}' && c != ','
      && (v.Null? <==> c == 'n') && (v.Bool? <==> c == 't' || c == 'f') && (v.Num? <==> NumericChar(c))
      && (v.Str? <==> c == '"') && (v.Arr? <==> c == '[') && (v.Obj? <==> c == '{')
  {
    match v
    case Num(literal) => assert literal[0] in literal;
    case Arr(items) => if items != [] { Assoc("[", Text(items[0]), ItemsTail(items[1..])); }
    case Obj(fields) => if fields != [] { Assoc("{", FieldText(fields[0]), FieldsTail(fields[1..])); }
    case _ =>
  }

  lemma ItemsHead(items: seq<Json>, s: string)
    ensures ItemsTail(items) + s != "" && Closes(ItemsTail(items) + s)
    ensures (ItemsTail(items) + s)[0] == (if items == [] then ']' else ',')
  {
    if items != [] {
      Assoc3(",", Text(items[0]), ItemsTail(items[1..]), s);
      HeadOf(",", Text(items[0]) + (ItemsTail(items[1..]) + s));
    }
  }

  lemma FieldsHead(fields: seq<Field>, s: string)
    ensures FieldsTail(fields) + s != "" && Closes(FieldsTail(fields) + s)
    ensures (FieldsTail(fields) + s)[0] == (if fields == [] then '}' else ',')
  {
    if fields != [] {
      Assoc3(",", FieldText(fields[0]), FieldsTail(fields[1..]), s);
      HeadOf(",", FieldText(fields[0]) + (FieldsTail(fields[1..]) + s));
    }
  }

  // A text with its opening bracket, or comma, taken off.
  lemma OpenArray(items: seq<Json>, s: string)
    requires items != [] && Printable(items[0])
    ensures Text(Arr(items)) + s == "[" + (Text(items[0]) + (ItemsTail(items[1..]) + s))
    ensures |Text(Arr(items)) + s| >= 2 && (Text(Arr(items)) + s)[1] != ']'
  {
    TextHead(items[0]);
    Assoc3("[", Text(items[0]), ItemsTail(items[1..]), s);
  }

  lemma OpenObject(fields: seq<Field>, s: string)
    requires fields != []
    ensures Text(Obj(fields)) + s == "{" + (FieldText(fields[0]) + (FieldsTail(fields[1..]) + s))
    ensures |Text(Obj(fields)) + s| >= 2 && (Text(Obj(fields)) + s)[1] == '"'
  {
    Assoc3("{", FieldText(fields[0]), FieldsTail(fields[1..]), s);
  }

  lemma EmptyBrackets(s: string)
    ensures |"[]" + s| >= 2 && ("[]" + s)[1] == ']' && |"{}" + s| >= 2 && ("{}" + s)[1] == '}'
  {
  }

  /** The text of a value, wherever it stands, determines the value and where it ends. */
  lemma {:induction false} TextUnique(x: Json, s: string, y: Json, t: string)
    requires Printable(x) && Printable(y) && Closes(s) && Closes(t) && Text(x) + s == Text(y) + t
    ensures x == y && s == t
    decreases x, 1
  {
    TextHead(x);
    TextHead(y);
    HeadOf(Text(x), s);
    HeadOf(Text(y), t);
    match x
    case Null => SamePrefix(Text(x), s, t);
    case Bool(_) =>
      assert Text(x) == Text(y);
      SamePrefix(Text(x), s, t);
    case Num(a) => NumberUnique(a, s, y.literal, t);
    case Str(a) => QuoteUnique(a, s, y.text, t);
    case Arr(_) => ArrayUnique(x, s, y, t);
    case Obj(_) => ObjectUnique(x, s, y, t);
  }

  lemma {:induction false} ArrayUnique(x: Json, s: string, y: Json, t: string)
    requires x.Arr? && y.Arr?
    requires Printable(x) && Printable(y) && Closes(s) && Closes(t) && Text(x) + s == Text(y) + t
    ensures x == y && s == t
    decreases x, 0
  {
    var xs, ys := x.items, y.items;
    if xs == [] || ys == [] {
      EmptyBrackets(s);
      EmptyBrackets(t);
      if xs != [] { OpenArray(xs, s); }
      if ys != [] { OpenArray(ys, t); }
      SamePrefix("[]", s, t);
    } else {
      OpenArray(xs, s);
      OpenArray(ys, t);
      SamePrefix("[", Text(xs[0]) + (ItemsTail(xs[1..]) + s), Text(ys[0]) + (ItemsTail(ys[1..]) + t));
      ItemThenTail(xs, s, ys, t);
    }
  }

  lemma {:induction false} ItemThenTail(xs: seq<Json>, s: string, ys: seq<Json>, t: string)
    requires xs != [] && ys != []
    requires forall i :: 0 <= i < |xs| ==> Printable(xs[i])
    requires forall i :: 0 <= i < |ys| ==> Printable(ys[i])
    requires Closes(s) && Closes(t)
    requires Text(xs[0]) + (ItemsTail(xs[1..]) + s) == Text(ys[0]) + (ItemsTail(ys[1..]) + t)
    ensures xs == ys && s == t
    decreases xs, 0
  {
    ItemsHead(xs[1..], s);
    ItemsHead(ys[1..], t);
    TextUnique(xs[0], ItemsTail(xs[1..]) + s, ys[0], ItemsTail(ys[1..]) + t);
    ItemsUnique(xs[1..], s, ys[1..], t);
  }

  lemma {:induction false} ItemsUnique(xs: seq<Json>, s: string, ys: seq<Json>, t: string)
    requires forall i :: 0 <= i < |xs| ==> Printable(xs[i])
    requires forall i :: 0 <= i < |ys| ==> Printable(ys[i])
    requires Closes(s) && Closes(t) && ItemsTail(xs) + s == ItemsTail(ys) + t
    ensures xs == ys && s == t
    decreases xs, 1
  {
    ItemsHead(xs, s);
    ItemsHead(ys, t);
    if xs == [] {
      SamePrefix("]", s, t);
    } else {
      Assoc3(",", Text(xs[0]), ItemsTail(xs[1..]), s);
      Assoc3(",", Text(ys[0]), ItemsTail(ys[1..]), t);
      SamePrefix(",", Text(xs[0]) + (ItemsTail(xs[1..]) + s), Text(ys[0]) + (ItemsTail(ys[1..]) + t));
      ItemThenTail(xs, s, ys, t);
    }
  }

  lemma {:induction false} FieldUnique(f: Field, s: string, g: Field, t: string)
    requires Printable(f.value) && Printable(g.value) && Closes(s) && Closes(t) && FieldText(f) + s == FieldText(g) + t
    ensures f == g && s == t
    decreases f, 0
  {
    Assoc3(Quote(f.key), ":", Text(f.value), s);
    Assoc3(Quote(g.key), ":", Text(g.value), t);
    QuoteUnique(f.key, ":" + (Text(f.value) + s), g.key, ":" + (Text(g.value) + t));
    SamePrefix(":", Text(f.value) + s, Text(g.value) + t);
    TextUnique(f.value, s, g.value, t);
  }

  lemma {:induction false} ObjectUnique(x: Json, s: string, y: Json, t: string)
    requires x.Obj? && y.Obj?
    requires Printable(x) && Printable(y) && Closes(s) && Closes(t) && Text(x) + s == Text(y) + t
    ensures x == y && s == t
    decreases x, 0
  {
    var fs, gs := x.fields, y.fields;
    if fs == [] || gs == [] {
      EmptyBrackets(s);
      EmptyBrackets(t);
      if fs != [] { OpenObject(fs, s); }
      if gs != [] { OpenObject(gs, t); }
      SamePrefix("{}", s, t);
    } else {
      OpenObject(fs, s);
      OpenObject(gs, t);
      SamePrefix("{", FieldText(fs[0]) + (FieldsTail(fs[1..]) + s), FieldText(gs[0]) + (FieldsTail(gs[1..]) + t));
      FieldThenTail(fs, s, gs, t);
    }
  }

  lemma {:induction false} FieldThenTail(fs: seq<Field>, s: string, gs: seq<Field>, t: string)
    requires fs != [] && gs != []
    requires forall i :: 0 <= i < |fs| ==> Printable(fs[i].value)
    requires forall i :: 0 <= i < |gs| ==> Printable(gs[i].value)
    requires Closes(s) && Closes(t)
    requires FieldText(fs[0]) + (FieldsTail(fs[1..]) + s) == FieldText(gs[0]) + (FieldsTail(gs[1..]) + t)
    ensures fs == gs && s == t
    decreases fs, 0
  {
    FieldsHead(fs[1..], s);
    FieldsHead(gs[1..], t);
    FieldUnique(fs[0], FieldsTail(fs[1..]) + s, gs[0], FieldsTail(gs[1..]) + t);
    FieldsUnique(fs[1..], s, gs[1..], t);
  }

  lemma {:induction false} FieldsUnique(fs: seq<Field>, s: string, gs: seq<Field>, t: string)
    requires forall i :: 0 <= i < |fs| ==> Printable(fs[i].value)
    requires forall i :: 0 <= i < |gs| ==> Printable(gs[i].value)
    requires Closes(s) && Closes(t) && FieldsTail(fs) + s == FieldsTail(gs) + t
    ensures fs == gs && s == t
    decreases fs, 1
  {
    FieldsHead(fs, s);
    FieldsHead(gs, t);
    if fs == [] {
      SamePrefix("}", s, t);
    } else {
      Assoc3(",", FieldText(fs[0]), FieldsTail(fs[1..]), s);
      Assoc3(",", FieldText(gs[0]), FieldsTail(gs[1..]), t);
      SamePrefix(",", FieldText(fs[0]) + (FieldsTail(fs[1..]) + s), FieldText(gs[0]) + (FieldsTail(gs[1..]) + t));
      FieldThenTail(fs, s, gs, t);
    }
  }

  // ----- no line breaks

  lemma {:induction false} EscapedHasNoNewline(s: string)
    ensures '\n' !in EscapeAll(s)
  {
    if s != "" {
      FirstCharOfEscape(s[0], "");
      EscapedHasNoNewline(s[1..]);
    }
  }

  /** A text is a single line. */
  lemma {:induction false} TextHasNoNewline(v: Json)
    requires Printable(v)
    ensures '\n' !in Text(v)
    decreases v, 0
  {
    match v
    case Str(text) => EscapedHasNoNewline(text);
    case Arr(items) =>
      if items != [] {
        TextHasNoNewline(items[0]);
        ItemsHaveNoNewline(items[1..]);
      }
    case Obj(fields) =>
      if fields != [] {
        FieldHasNoNewline(fields[0]);
        FieldsHaveNoNewline(fields[1..]);
      }
    case _ =>
  }

  lemma {:induction false} FieldHasNoNewline(f: Field)
    requires Printable(f.value)
    ensures '\n' !in FieldText(f)
    decreases f, 1
  {
    EscapedHasNoNewline(f.key);
    TextHasNoNewline(f.value);
  }

  lemma {:induction false} ItemsHaveNoNewline(items: seq<Json>)
    requires forall i :: 0 <= i < |items| ==> Printable(items[i])
    ensures '\n' !in ItemsTail(items)
    decreases items, 0
  {
    if items != [] {
      TextHasNoNewline(items[0]);
      ItemsHaveNoNewline(items[1..]);
    }
  }

  lemma {:induction false} FieldsHaveNoNewline(fields: seq<Field>)
    requires forall i :: 0 <= i < |fields| ==> Printable(fields[i].value)
    ensures '\n' !in FieldsTail(fields)
    decreases fields, 0
  {
    if fields != [] {
      FieldHasNoNewline(fields[0]);
      FieldsHaveNoNewline(fields[1..]);
    }
  }

  // ----- what the text is

  // The parts with commas between them.
  ghost function Joined(parts: seq<string>): string {
    if parts == [] then "" else if |parts| == 1 then parts[0] else parts[0] + "," + Joined(parts[1..])
  }

  // The texts of a list of items, and of a list of fields.
  ghost function ItemTexts(items: seq<Json>): (r: seq<string>)
    ensures |r| == |items|
  {
    seq(|items|, i requires 0 <= i < |items| => Text(items[i]))
  }

  ghost function FieldTexts(fields: seq<Field>): (r: seq<string>)
    ensures |r| == |fields|
  {
    seq(|fields|, i requires 0 <= i < |fields| => Quote(fields[i].key) + ":" + Text(fields[i].value))
  }

  lemma {:induction false} ItemsTailIsJoined(items: seq<Json>)
    requires items != []
    ensures Text(items[0]) + ItemsTail(items[1..]) == Joined(ItemTexts(items)) + "]"
  {
    var tail := items[1..];
    assert ItemTexts(items)[1..] == ItemTexts(tail);
    if tail == [] {
      assert ItemTexts(items) == [Text(items[0])];
    } else {
      ItemsTailIsJoined(tail);
      Assoc(Text(items[0]), ",", Text(tail[0]) + ItemsTail(tail[1..]));
      Assoc(",", Text(tail[0]), ItemsTail(tail[1..]));
      Assoc(Text(items[0]) + ",", Joined(ItemTexts(tail)), "]");
    }
  }

  lemma {:induction false} FieldsTailIsJoined(fields: seq<Field>)
    requires fields != []
    ensures FieldText(fields[0]) + FieldsTail(fields[1..]) == Joined(FieldTexts(fields)) + "}"
  {
    var tail := fields[1..];
    assert FieldTexts(fields)[1..] == FieldTexts(tail);
    if tail == [] {
      assert FieldTexts(fields) == [FieldText(fields[0])];
    } else {
      FieldsTailIsJoined(tail);
      Assoc(FieldText(fields[0]), ",", FieldText(tail[0]) + FieldsTail(tail[1..]));
      Assoc(",", FieldText(tail[0]), FieldsTail(tail[1..]));
      Assoc(FieldText(fields[0]) + ",", Joined(FieldTexts(tail)), "}");
    }
  }

  /** An array is its items between brackets, with commas between them ... */
  lemma ArrayText(items: seq<Json>)
    ensures Text(Arr(items)) == "[" + Joined(ItemTexts(items)) + "]"
  {
    if items != [] {
      ItemsTailIsJoined(items);
      Assoc("[", Text(items[0]), ItemsTail(items[1..]));
      Assoc("[", Joined(ItemTexts(items)), "]");
    }
  }

  /** ... and an object its fields between braces, each with its quoted key and a colon. */
  lemma ObjectText(fields: seq<Field>)
    ensures Text(Obj(fields)) == "{" + Joined(FieldTexts(fields)) + "}"
  {
    if fields != [] {
      FieldsTailIsJoined(fields);
      Assoc("{", FieldText(fields[0]), FieldsTail(fields[1..]));
      Assoc("{", Joined(FieldTexts(fields)), "}");
    }
  }

  /** The other values, and the escapes of section 7 of RFC 8259. */
  lemma SimpleTexts(literal: string, s: string, c: char)
    ensures Text(Null) == "null" && Text(Bool(true)) == "true" && Text(Bool(false)) == "false"
    ensures Text(Num(literal)) == literal
    ensures Text(Str("")) == "\"\"" && Text(Str([c] + s)) == "\"" + (EscapeChar(c) + EscapeAll(s)) + "\""
    ensures EscapeChar('"') == "\\\"" && EscapeChar('\\') == "\\\\"
    ensures EscapeChar('\n') == "\\n" && EscapeChar('\r') == "\\r" && EscapeChar('\t') == "\\t"
    ensures EscapeChar('\U{0008}') == "\\b" && EscapeChar('\U{000C}') == "\\f" && EscapeChar('\U{001F}') == "\\u001f"
    ensures c >= ' ' && c != '"' && c != '\\' ==> EscapeChar(c) == [c]
  {
    assert ([c] + s)[0] == c && ([c] + s)[1..] == s;
  }
}
