/** JSON values, the serializer and the recursive-descent parser, as functions
    on text. Numbers are reals; `show` stands for the decimal rendering of the
    numbers that are not printed as integers. */
module JsonText {

  datatype Json =
    | Null
    | Bool(b: bool)
    | Num(n: real)
    | Str(s: string)
    | Arr(items: seq<Json>)
    | Obj(fields: seq<Field>)

  datatype Field = Field(key: string, value: Json)

  const MAX_DEPTH := 64

  // ---- serializer --------------------------------------------------------------------

  function Digit(d: nat): char
    requires d < 10
  {
    '0' + d as char
  }

  function Decimal(n: nat): (s: string)
    ensures s != []
  {
    if n < 10 then [Digit(n)] else Decimal(n / 10) + [Digit(n % 10)]
  }

  function Integer(n: int): (s: string)
    ensures s != []
  {
    if n < 0 then "-" + Decimal(-n) else Decimal(n)
  }

  /** Printed without a fraction: an integer below 10^15 in magnitude. */
  predicate PrintsAsInteger(n: real) {
    n == n.Floor as real && -1_000_000_000_000_000.0 < n < 1_000_000_000_000_000.0
  }

  function HexDigit(d: nat): char
    requires d < 16
  {
    if d < 10 then Digit(d) else 'a' + (d - 10) as char
  }

  function Escape(c: char): string {
    if c == '"' then "\\\""
    else if c == '\\' then "\\\\"
    else if c == '\n' then "\\n"
    else if c == '\r' then "\\r"
    else if c == '\t' then "\\t"
    else if c < ' ' then ['\\', 'u', '0', '0', HexDigit(c as int / 16), HexDigit(c as int % 16)]
    else [c]
  }

  function EscapeAll(s: string): string {
    if s == [] then [] else Escape(s[0]) + EscapeAll(s[1..])
  }

  function Quoted(s: string): string {
    "\"" + EscapeAll(s) + "\""
  }

  /** Pretty output indents by `width` spaces per level, compact output not at all. */
  datatype Layout = Compact | Pretty(width: nat)

  function Spaces(n: nat): string { seq(n, _ => ' ') }

  function Break(layout: Layout, level: nat): string {
    match layout
    case Compact => ""
    case Pretty(width) => "\n" + Spaces(width * level)
  }

  function Colon(layout: Layout): string {
    if layout.Compact? then ":" else ": "
  }

  function Write(show: real -> string, v: Json, layout: Layout, level: nat): string
    decreases v, 1
  {
    match v
    case Null => "null"
    case Bool(b) => if b then "true" else "false"
    case Num(n) => if PrintsAsInteger(n) then Integer(n.Floor) else show(n)
    case Str(s) => Quoted(s)
    case Arr(items) =>
      if level >= MAX_DEPTH then "[...]"
      else if items == [] then "[]"
      else "[" + WriteItems(show, items, layout, level + 1) + (Break(layout, level) + "]")
    case Obj(fields) =>
      if level >= MAX_DEPTH then "{...}"
      else if fields == [] then "{}"
      else "{" + WriteFields(show, fields, layout, level + 1) + (Break(layout, level) + "}")
  }

  function WriteItems(show: real -> string, items: seq<Json>, layout: Layout, level: nat): string
    requires items != []
    decreases items, 0
  {
    Break(layout, level) + Write(show, items[0], layout, level)
    + (if |items| == 1 then "" else "," + WriteItems(show, items[1..], layout, level))
  }

  function WriteFields(show: real -> string, fields: seq<Field>, layout: Layout, level: nat): string
    requires fields != []
    decreases fields, 0
  {
    Break(layout, level) + Quoted(fields[0].key) + Colon(layout) + Write(show, fields[0].value, layout, level)
    + (if |fields| == 1 then "" else "," + WriteFields(show, fields[1..], layout, level))
  }

  // ---- parser ------------------------------------------------------------------------

  /** The outcome of a parsing step: a value and the text that remains. */
  datatype Parsed<+T> = Fail | Done(value: T, rest: string)

  predicate IsSpace(c: char) {
    c == ' ' || c == '\t' || c == '\n' || c == '\r'
  }

  predicate IsDigit(c: char) {
    '0' <= c <= '9'
  }

  function SkipSpace(s: string): (r: string)
    ensures |r| <= |s|
    ensures r != [] ==> !IsSpace(r[0])
  {
    if s != [] && IsSpace(s[0]) then SkipSpace(s[1..]) else s
  }

  /** Length of the leading run of digits. */
  function DigitRun(s: string): (n: nat)
    ensures n <= |s| && forall i :: 0 <= i < n ==> IsDigit(s[i])
    ensures n < |s| ==> !IsDigit(s[n])
  {
    if s != [] && IsDigit(s[0]) then 1 + DigitRun(s[1..]) else 0
  }

  function DecimalValue(s: string): nat
    requires forall i :: 0 <= i < |s| ==> IsDigit(s[i])
  {
    if s == [] then 0
    else
      assert IsDigit(s[|s| - 1]);
      10 * DecimalValue(s[..|s| - 1]) + (s[|s| - 1] as int - '0' as int)
  }

  /** `x` times ten to the power `e`. */
  function Shift(x: real, e: int): real
    decreases if e < 0 then -e else e
  {
    if e == 0 then x else if e > 0 then Shift(10.0 * x, e - 1) else Shift(x / 10.0, e + 1)
  }

  /** The digits before any fraction or exponent: zero, or no leading zero. */
  function IntegerPart(s: string): (r: Parsed<nat>)
    ensures r.Done? ==> |r.rest| < |s|
  {
    if s == [] then Fail
    else if s[0] == '0' then
      if |s| > 1 && IsDigit(s[1]) then Fail else Done(0, s[1..])
    else if IsDigit(s[0]) then
      var n := DigitRun(s);
      Done(DecimalValue(s[..n]), s[n..])
    else Fail
  }

  /** `.digits` if present: the digits and how many there are. */
  function Fraction(s: string): (r: Parsed<Places>)
    ensures r.Done? ==> |r.rest| <= |s|
  {
    if s == [] || s[0] != '.' then Done(Places(0, 0), s)
    else
      var n := DigitRun(s[1..]);
      if n == 0 then Fail else Done(Places(DecimalValue(s[1..][..n]), n), s[1..][n..])
  }

  datatype Places = Places(digits: nat, count: nat)

  /** The parts of an unsigned number. */
  datatype Parts = Parts(whole: nat, fraction: Places, power: int)

  function Amount(p: Parts): real {
    Shift(p.whole as real + Shift(p.fraction.digits as real, -(p.fraction.count as int)), p.power)
  }

  /** The digits of an exponent, at least one. */
  function Power(s: string, negative: bool): (r: Parsed<int>)
    ensures r.Done? ==> |r.rest| <= |s|
  {
    var n := DigitRun(s);
    if n == 0 then Fail
    else
      var power: int := DecimalValue(s[..n]);
      Done(if negative then -power else power, s[n..])
  }

  /** `e` or `E`, an optional sign and digits if present, as the power of ten. */
  function Exponent(s: string): (r: Parsed<int>)
    ensures r.Done? ==> |r.rest| <= |s|
  {
    if s == [] || (s[0] != 'e' && s[0] != 'E') then Done(0, s)
    else if |s| > 1 && (s[1] == '+' || s[1] == '-') then Power(s[2..], s[1] == '-')
    else Power(s[1..], false)
  }

  /** An unsigned number: whole part, optional fraction, optional exponent. */
  function Magnitude(s: string): (r: Parsed<Parts>)
    ensures r.Done? ==> |r.rest| < |s|
  {
    match IntegerPart(s)
    case Fail => Fail
    case Done(whole, afterWhole) =>
      match Fraction(afterWhole)
      case Fail => Fail
      case Done(fraction, afterFraction) =>
        match Exponent(afterFraction)
        case Fail => Fail
        case Done(power, rest) => Done(Parts(whole, fraction, power), rest)
  }

  /** 2^1024 - 2^970: from here on a magnitude rounds to infinity in 64 bits. */
  const FINITE_BOUND :=
    0xFFFF_FFFF_FFFF_FC00
    * 0x1_0000_0000_0000_0000_0000_0000_0000_0000_0000_0000_0000_0000
    * 0x1_0000_0000_0000_0000_0000_0000_0000_0000_0000_0000_0000_0000
    * 0x1_0000_0000_0000_0000_0000_0000_0000_0000_0000_0000_0000_0000
    * 0x1_0000_0000_0000_0000_0000_0000_0000_0000_0000_0000_0000_0000
    * 0x1_0000_0000_0000_0000_0000_0000_0000_0000_0000_0000_0000_0000

  predicate InFiniteRange(magnitude: real) {
    magnitude < FINITE_BOUND as real
  }

  function Number(s: string): (r: Parsed<Json>)
    requires s != []
    ensures r.Done? ==> |r.rest| < |s|
  {
    var negative := s[0] == '-';
    match Magnitude(if negative then s[1..] else s)
    case Fail => Fail
    case Done(m, rest) =>
      if InFiniteRange(Amount(m)) then Done(Num(if negative then -Amount(m) else Amount(m)), rest) else Fail
  }

  function HexValue(c: char): int {
    if '0' <= c <= '9' then c as int - '0' as int
    else if 'a' <= c <= 'f' then c as int - 'a' as int + 10
    else if 'A' <= c <= 'F' then c as int - 'A' as int + 10
    else -1
  }

  function Hex4(s: string): (r: Parsed<nat>)
    ensures r.Done? ==> r.value < 0x1_0000 && |s| >= 4 && r.rest == s[4..]
  {
    if |s| < 4 then Fail
    else
      var a, b, c, d := HexValue(s[0]), HexValue(s[1]), HexValue(s[2]), HexValue(s[3]);
      if a < 0 || b < 0 || c < 0 || d < 0 then Fail
      else Done(((a * 16 + b) * 16 + c) * 16 + d, s[4..])
  }

  /** The four hex digits after `\u`, with surrogate pairs combined. */
  function UnicodeEscape(s: string): (r: Parsed<char>)
    ensures r.Done? ==> |r.rest| < |s|
  {
    match Hex4(s)
    case Fail => Fail
    case Done(high, rest) =>
      if 0xD800 <= high <= 0xDBFF then
        if |rest| >= 2 && rest[0] == '\\' && rest[1] == 'u' then
          match Hex4(rest[2..])
          case Fail => Fail
          case Done(low, after) =>
            if !(0xDC00 <= low <= 0xDFFF) then Fail
            else Done((0x1_0000 + (high - 0xD800) * 0x400 + (low - 0xDC00)) as char, after)
        else Fail
      else if 0xDC00 <= high <= 0xDFFF then Fail
      else Done(high as char, rest)
  }

  predicate IsShortEscape(e: char) {
    e == '"' || e == '\\' || e == '/' || e == 'n' || e == 't' || e == 'r' || e == 'b' || e == 'f'
  }

  /** The character named by a one-letter escape. */
  function ShortEscape(e: char): (c: char)
    requires IsShortEscape(e)
  {
    if e == 'n' then '\n'
    else if e == 't' then '\t'
    else if e == 'r' then '\r'
    else if e == 'b' then 8 as char
    else if e == 'f' then 12 as char
    else e
  }

  /** The escape after a backslash. */
  function EscapeSequence(s: string): (r: Parsed<char>)
    ensures r.Done? ==> |r.rest| < |s|
  {
    if s == [] then Fail
    else if IsShortEscape(s[0]) then Done(ShortEscape(s[0]), s[1..])
    else if s[0] == 'u' then UnicodeEscape(s[1..])
    else Fail
  }

  /** The text after an opening quote, up to the closing one. */
  function StringBody(s: string, acc: string): (r: Parsed<string>)
    ensures r.Done? ==> |r.rest| < |s|
    decreases |s|
  {
    if s == [] then Fail
    else if s[0] == '"' then Done(acc, s[1..])
    else if s[0] == '\\' then
      match EscapeSequence(s[1..])
      case Fail => Fail
      case Done(c, rest) => StringBody(rest, acc + [c])
    else if s[0] < ' ' then Fail
    else StringBody(s[1..], acc + [s[0]])
  }

  function Literal(s: string, word: string, v: Json): Parsed<Json> {
    if word <= s then Done(v, s[|word|..]) else Fail
  }

  /** A string, a word or a number. */
  function Scalar(s: string): (r: Parsed<Json>)
    requires s != []
    ensures r.Done? ==> |r.rest| < |s|
  {
    if s[0] == '-' || IsDigit(s[0]) then Number(s)
    else if s[0] == '"' then
      match StringBody(s[1..], [])
      case Fail => Fail
      case Done(t, rest) => Done(Str(t), rest)
    else if s[0] == 't' then Literal(s, "true", Bool(true))
    else if s[0] == 'f' then Literal(s, "false", Bool(false))
    else if s[0] == 'n' then Literal(s, "null", Null)
    else Fail
  }

  /** `value`: any JSON value after optional space, at a nesting depth. */
  function Value(text: string, depth: nat): (r: Parsed<Json>)
    ensures r.Done? ==> |r.rest| < |text|
    decreases |text|, 1
  {
    var s := SkipSpace(text);
    if s == [] then Fail
    else if (s[0] == '{' || s[0] == '[') && depth >= MAX_DEPTH then Fail
    else if s[0] == '{' then
      var body := SkipSpace(s[1..]);
      if body != [] && body[0] == '}' then Done(Obj([]), body[1..]) else Members(body, depth + 1, [])
    else if s[0] == '[' then
      var body := SkipSpace(s[1..]);
      if body != [] && body[0] == ']' then Done(Arr([]), body[1..]) else Elements(body, depth + 1, [])
    else Scalar(s)
  }

  /** The elements of a non-empty array up to its closing bracket. */
  function Elements(s: string, depth: nat, acc: seq<Json>): (r: Parsed<Json>)
    ensures r.Done? ==> |r.rest| < |s|
    decreases |s|, 2
  {
    match Value(s, depth)
    case Fail => Fail
    case Done(v, rest) =>
      AfterElement(SkipSpace(rest), depth, acc + [v])
  }

  /** What follows an element: the next one, or the end of the array. */
  function AfterElement(t: string, depth: nat, acc: seq<Json>): (r: Parsed<Json>)
    ensures r.Done? ==> |r.rest| < |t|
    decreases |t|, 3
  {
    if t == [] then Fail
    else if t[0] == ',' then Elements(t[1..], depth, acc)
    else if t[0] == ']' then Done(Arr(acc), t[1..])
    else Fail
  }

  predicate HasKey(fields: seq<Field>, key: string) {
    exists i :: 0 <= i < |fields| && fields[i].key == key
  }

  /** A new key and the colon after it. */
  function MemberKey(text: string, acc: seq<Field>): (r: Parsed<string>)
    ensures r.Done? ==> |r.rest| < |text|
  {
    var s := SkipSpace(text);
    if s == [] || s[0] != '"' then Fail
    else
      match StringBody(s[1..], [])
      case Fail => Fail
      case Done(key, afterKey) =>
        var t := SkipSpace(afterKey);
        if HasKey(acc, key) || t == [] || t[0] != ':' then Fail else Done(key, t[1..])
  }

  /** The members of a non-empty object up to its closing brace. */
  function Members(text: string, depth: nat, acc: seq<Field>): (r: Parsed<Json>)
    ensures r.Done? ==> |r.rest| < |text|
    decreases |text|, 2
  {
    match MemberKey(text, acc)
    case Fail => Fail
    case Done(key, afterKey) =>
      match Value(afterKey, depth)
      case Fail => Fail
      case Done(v, afterValue) =>
        AfterMember(SkipSpace(afterValue), depth, acc + [Field(key, v)])
  }

  /** What follows a member: the next one, or the end of the object. */
  function AfterMember(u: string, depth: nat, acc: seq<Field>): (r: Parsed<Json>)
    ensures r.Done? ==> |r.rest| < |u|
    decreases |u|, 3
  {
    if u == [] then Fail
    else if u[0] == ',' then Members(u[1..], depth, acc)
    else if u[0] == '}' then Done(Obj(acc), u[1..])
    else Fail
  }

  /** A whole document: one value and nothing after it but space. */
  function Document(text: string): Parsed<Json> {
    match Value(text, 0)
    case Fail => Fail
    case Done(v, rest) => if SkipSpace(rest) == [] then Done(v, []) else Fail
  }
}
