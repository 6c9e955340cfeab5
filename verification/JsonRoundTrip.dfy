/** Parsing what the serializer wrote: the value comes back if and only if its
    containers are nested at most 64 deep and its object keys are unique. */
module JsonRoundTrip {
  import opened JsonText

  // ---- numbers -----------------------------------------------------------------------

  predicate AllDigits(s: string) {
    forall i :: 0 <= i < |s| ==> IsDigit(s[i])
  }

  lemma DigitIsDigit(d: nat)
    requires d < 10
    ensures IsDigit(Digit(d)) && Digit(d) as int - '0' as int == d
    ensures Digit(d) == '0' <==> d == 0
  {
  }

  lemma {:induction false} DecimalReads(n: nat)
    ensures AllDigits(Decimal(n)) && DecimalValue(Decimal(n)) == n
    ensures n > 0 ==> Decimal(n)[0] != '0'
    ensures n == 0 ==> Decimal(n) == ['0']
  {
    if n < 10 {
      DigitIsDigit(n);
      assert Decimal(n)[..0] == [];
    } else {
      DecimalReads(n / 10);
      DigitIsDigit(n % 10);
      var s := Decimal(n);
      assert s[..|s| - 1] == Decimal(n / 10) && s[|s| - 1] == Digit(n % 10);
    }
  }

  /** Text that cannot continue a number. */
  predicate Delimits(rest: string) {
    rest == [] || (!IsDigit(rest[0]) && rest[0] != '.' && rest[0] != 'e' && rest[0] != 'E')
  }

  lemma {:induction false} DigitRunStops(d: string, rest: string)
    requires AllDigits(d) && Delimits(rest)
    ensures DigitRun(d + rest) == |d|
  {
    if d == [] {
      assert d + rest == rest;
    } else {
      DigitRunStops(d[1..], rest);
      assert (d + rest)[1..] == d[1..] + rest;
    }
  }

  lemma IntegerPartReads(n: nat, rest: string)
    requires Delimits(rest)
    ensures IntegerPart(Decimal(n) + rest) == Done(n, rest)
  {
    DecimalReads(n);
    var d := Decimal(n);
    var s := d + rest;
    assert s[0] == d[0] && IsDigit(d[0]);
    if n == 0 {
      assert s[1..] == rest;
      assert |s| > 1 ==> s[1] == rest[0];
    } else {
      DigitRunStops(d, rest);
      assert s[..|d|] == d && s[|d|..] == rest;
    }
  }

  lemma MagnitudeReads(n: nat, rest: string)
    requires Delimits(rest)
    ensures Magnitude(Decimal(n) + rest) == Done(Parts(n, Places(0, 0), 0), rest)
  {
    IntegerPartReads(n, rest);
  }

  lemma AmountOfInteger(n: nat)
    ensures Amount(Parts(n, Places(0, 0), 0)) == n as real
  {
  }

  lemma NumberReads(n: int, rest: string)
    requires Delimits(rest) && -FINITE_BOUND < n < FINITE_BOUND
    ensures Number(Integer(n) + rest) == Done(Num(n as real), rest)
  {
    if n < 0 {
      NegativeReads(n, rest);
    } else {
      PositiveReads(n, rest);
    }
  }

  lemma IntegerStarts(n: int, rest: string)
    ensures var s := Integer(n) + rest; s[0] == '-' || IsDigit(s[0])
  {
    var d := Decimal(if n < 0 then -n else n);
    DecimalReads(if n < 0 then -n else n);
    assert IsDigit(d[0]);
  }

  lemma PositiveReads(n: nat, rest: string)
    requires Delimits(rest) && n < FINITE_BOUND
    ensures var s := Decimal(n) + rest; IsDigit(s[0]) && Number(s) == Done(Num(n as real), rest)
  {
    var d := Decimal(n);
    MagnitudeReads(n, rest);
    AmountOfInteger(n);
    DecimalReads(n);
    assert (d + rest)[0] == d[0];
  }

  lemma NegativeReads(n: int, rest: string)
    requires Delimits(rest) && -FINITE_BOUND < n < 0
    ensures Number("-" + Decimal(-n) + rest) == Done(Num(n as real), rest)
  {
    var d: string, m: nat := Decimal(-n), -n;
    assert "-" + d + rest == "-" + (d + rest);
    MagnitudeReads(m, rest);
    AmountOfInteger(m);
    SignReads(d + rest, Parts(m, Places(0, 0), 0), rest);
    assert -(m as real) == n as real;
  }

  lemma SignReads(t: string, m: Parts, rest: string)
    requires Magnitude(t) == Done(m, rest) && InFiniteRange(Amount(m))
    ensures Number("-" + t) == Done(Num(-Amount(m)), rest)
  {
    assert ("-" + t)[1..] == t;
  }

  // ---- strings -----------------------------------------------------------------------

  lemma HexReads(d: nat)
    requires d < 16
    ensures HexValue(HexDigit(d)) == d
  {
  }

  lemma ControlReads(c: char, rest: string)
    requires c < ' '
    ensures UnicodeEscape(['0', '0', HexDigit(c as int / 16), HexDigit(c as int % 16)] + rest) == Done(c, rest)
  {
    var h := ['0', '0', HexDigit(c as int / 16), HexDigit(c as int % 16)];
    HexReads(c as int / 16);
    HexReads(c as int % 16);
    HexReads(0);
    assert h[0] == HexDigit(0) && h[1] == HexDigit(0);
    assert (h + rest)[4..] == rest;
    assert Hex4(h + rest) == Done(c as int, rest);
  }

  /** One escaped character reads back as itself. */
  lemma EscapeReads(c: char, rest: string, acc: string)
    ensures StringBody(Escape(c) + rest, acc) == StringBody(rest, acc + [c])
  {
    if Escape(c) == [c] {
      PlainTurn(c, rest, acc);
    } else {
      EscapeSequenceReads(c, rest);
      assert Escape(c) + rest == "\\" + (Escape(c)[1..] + rest);
      EscapedTurn(Escape(c)[1..] + rest, c, rest, acc);
    }
  }

  lemma PlainTurn(c: char, rest: string, acc: string)
    requires Escape(c) == [c]
    ensures StringBody([c] + rest, acc) == StringBody(rest, acc + [c])
  {
    assert ([c] + rest)[1..] == rest;
  }

  lemma EscapedTurn(s: string, c: char, rest: string, acc: string)
    requires EscapeSequence(s) == Done(c, rest)
    ensures StringBody("\\" + s, acc) == StringBody(rest, acc + [c])
  {
    assert ("\\" + s)[1..] == s;
  }

  lemma EscapeSequenceReads(c: char, rest: string)
    requires Escape(c) != [c]
    ensures EscapeSequence(Escape(c)[1..] + rest) == Done(c, rest)
  {
    if |Escape(c)| == 2 {
      ShortReads(Escape(c)[1], rest);
      assert Escape(c)[1..] + rest == [Escape(c)[1]] + rest;
    } else {
      var h := ['0', '0', HexDigit(c as int / 16), HexDigit(c as int % 16)];
      assert Escape(c)[1..] + rest == ['u'] + (h + rest);
      HexEscapeReads(h + rest);
      ControlReads(c, rest);
    }
  }

  lemma ShortReads(e: char, rest: string)
    requires IsShortEscape(e)
    ensures EscapeSequence([e] + rest) == Done(ShortEscape(e), rest)
  {
    assert ([e] + rest)[1..] == rest;
  }

  lemma HexEscapeReads(s: string)
    ensures EscapeSequence(['u'] + s) == UnicodeEscape(s)
  {
    assert (['u'] + s)[1..] == s;
  }

  lemma StringStep(c: char, more: string, tail: string, acc: string)
    ensures StringBody(Escape(c) + more + tail, acc) == StringBody(more + tail, acc + [c])
  {
    var head := Escape(c);
    assert head + more + tail == head + (more + tail);
    EscapeReads(c, more + tail, acc);
  }

  /** Reading `t`, closed by a quote, after its first `j` characters. */
  function StringFrom(t: string, rest: string, j: nat): Parsed<string> {
    if j <= |t| then StringBody(EscapeAll(t[j..]) + ("\"" + rest), t[..j]) else Fail
  }

  lemma StringTurn(t: string, rest: string, j: nat)
    requires j < |t|
    ensures StringFrom(t, rest, j) == StringFrom(t, rest, j + 1)
  {
    var s := t[j..];
    assert s[1..] == t[j + 1..] && t[..j] + [s[0]] == t[..j + 1];
    StringStep(s[0], EscapeAll(s[1..]), "\"" + rest, t[..j]);
  }

  predicate Same(read: nat -> Parsed<string>, j: nat) {
    read(j) == read(j + 1)
  }

  lemma {:induction false} SameThrough(read: nat -> Parsed<string>, n: nat)
    requires forall j: nat :: j < n ==> Same(read, j)
    ensures read(0) == read(n)
  {
    if n > 0 {
      SameThrough(read, n - 1);
      assert Same(read, n - 1);
    }
  }

  lemma StringEnds(acc: string, rest: string)
    ensures StringBody("\"" + rest, acc) == Done(acc, rest)
  {
    assert ("\"" + rest)[1..] == rest;
  }

  lemma StringReads(t: string, rest: string)
    ensures StringFrom(t, rest, 0) == Done(t, rest)
  {
    var read := (j: nat) => StringFrom(t, rest, j);
    forall j: nat | j < |t|
      ensures Same(read, j)
    {
      StringTurn(t, rest, j);
    }
    SameThrough(read, |t|);
    StringLast(t, rest);
  }

  lemma StringLast(t: string, rest: string)
    ensures StringFrom(t, rest, |t|) == Done(t, rest)
  {
    assert t[..|t|] == t && t[|t|..] == [] && EscapeAll([]) + ("\"" + rest) == "\"" + rest;
    StringEnds(t, rest);
  }

  // ---- space -------------------------------------------------------------------------

  predicate AllSpace(w: string) {
    forall i :: 0 <= i < |w| ==> IsSpace(w[i])
  }

  lemma {:induction false} SkipsSpace(w: string, t: string)
    requires AllSpace(w)
    ensures SkipSpace(w + t) == SkipSpace(t)
  {
    if w == [] {
      assert w + t == t;
    } else {
      SkipsSpace(w[1..], t);
      assert (w + t)[1..] == w[1..] + t;
    }
  }

  lemma BreakIsSpace(layout: Layout, level: nat)
    ensures AllSpace(Break(layout, level))
  {
  }

  /** A value may be preceded by space. */
  lemma ValueAfterSpace(w: string, t: string, depth: nat)
    requires AllSpace(w)
    ensures Value(w + t, depth) == Value(t, depth)
  {
    SkipsSpace(w, t);
  }

  lemma SkipSpaceTwice(s: string)
    ensures SkipSpace(SkipSpace(s)) == SkipSpace(s)
  {
  }

  lemma ValueOfSkipped(s: string, depth: nat)
    ensures Value(SkipSpace(s), depth) == Value(s, depth)
  {
    SkipSpaceTwice(s);
  }

  // ---- which values survive ------------------------------------------------------------

  /** The decimal rendering of `n` reads back as `n`. */
  ghost predicate ShowReads(show: real -> string, n: real) {
    var t := show(n);
    t != [] && (t[0] == '-' || IsDigit(t[0]))
    && forall rest :: Delimits(rest) ==> Number(t + rest) == Done(Num(n), rest)
  }

  /** Every number in the value is an integer below 10^15 in magnitude, or one
      whose decimal rendering reads back. */
  ghost predicate NumbersRead(show: real -> string, v: Json) {
    match v
    case Num(n) => PrintsAsInteger(n) || ShowReads(show, n)
    case Arr(items) => forall i :: 0 <= i < |items| ==> NumbersRead(show, items[i])
    case Obj(fields) => forall i :: 0 <= i < |fields| ==> NumbersRead(show, fields[i].value)
    case _ => true
  }

  predicate UniqueKeys(fields: seq<Field>) {
    forall i, j :: 0 <= i < j < |fields| ==> fields[i].key != fields[j].key
  }

  /** Containers start below level 64 and object keys are unique, all the way down. */
  predicate Fits(v: Json, level: nat) {
    match v
    case Arr(items) => level < MAX_DEPTH && forall i :: 0 <= i < |items| ==> Fits(items[i], level + 1)
    case Obj(fields) =>
      level < MAX_DEPTH && UniqueKeys(fields)
      && forall i :: 0 <= i < |fields| ==> Fits(fields[i].value, level + 1)
    case _ => true
  }

  /** How a printed value starts. */
  predicate StartsValue(c: char) {
    c == 'n' || c == 't' || c == 'f' || c == '"' || c == '[' || c == '{' || c == '-' || IsDigit(c)
  }

  lemma WriteStarts(show: real -> string, v: Json, layout: Layout, level: nat)
    requires NumbersRead(show, v)
    ensures var s := Write(show, v, layout, level); s != [] && StartsValue(s[0])
  {
    if v.Num? && PrintsAsInteger(v.n) {
      DecimalReads(if v.n.Floor < 0 then -v.n.Floor else v.n.Floor);
    }
  }

  // ---- one step of the parser on known text -----------------------------------------------

  lemma ValueOfArray(body: string, depth: nat)
    ensures Value("[" + body, depth) ==
      if depth >= MAX_DEPTH then Fail
      else
        var b := SkipSpace(body);
        if b != [] && b[0] == ']' then Done(Arr([]), b[1..]) else Elements(b, depth + 1, [])
  {
    var s := "[" + body;
    assert s[1..] == body && SkipSpace(s) == s;
  }

  lemma ValueOfObject(body: string, depth: nat)
    ensures Value("{" + body, depth) ==
      if depth >= MAX_DEPTH then Fail
      else
        var b := SkipSpace(body);
        if b != [] && b[0] == '}' then Done(Obj([]), b[1..]) else Members(b, depth + 1, [])
  {
    var s := "{" + body;
    assert s[1..] == body && SkipSpace(s) == s;
  }

  lemma ValueOfScalar(s: string, depth: nat)
    requires s != [] && !IsSpace(s[0]) && s[0] != '[' && s[0] != '{'
    ensures Value(s, depth) == Scalar(s)
  {
    assert SkipSpace(s) == s;
  }

  lemma ValueOfWord(word: string, v: Json, rest: string, depth: nat)
    requires (word == "true" && v == Bool(true)) || (word == "false" && v == Bool(false))
        || (word == "null" && v == Null)
    ensures Value(word + rest, depth) == Done(v, rest)
  {
    var s := word + rest;
    assert s[0] == word[0];
    ValueOfScalar(s, depth);
    assert word <= s && s[|word|..] == rest;
  }

  lemma ScalarOfDigits(s: string)
    requires s != [] && (s[0] == '-' || IsDigit(s[0]))
    ensures Scalar(s) == Number(s)
  {
  }

  lemma ValueOfDigits(s: string, p: Parsed<Json>, depth: nat)
    requires s != [] && (s[0] == '-' || IsDigit(s[0])) && Number(s) == p
    ensures Value(s, depth) == p
  {
    var q := Scalar(s);
    ScalarOfDigits(s);
    ValueOfScalar(s, depth);
    assert q == p;
  }

  lemma ValueOfNumber(n: int, rest: string, depth: nat)
    requires Delimits(rest) && -FINITE_BOUND < n < FINITE_BOUND
    ensures Value(Integer(n) + rest, depth) == Done(Num(n as real), rest)
  {
    NumberReads(n, rest);
    IntegerStarts(n, rest);
    ValueOfDigits(Integer(n) + rest, Done(Num(n as real), rest), depth);
  }

  lemma ValueOfShown(show: real -> string, n: real, rest: string, depth: nat)
    requires ShowReads(show, n) && Delimits(rest)
    ensures Value(show(n) + rest, depth) == Done(Num(n), rest)
  {
    var t := show(n);
    assert (t + rest)[0] == t[0];
    ValueOfDigits(t + rest, Done(Num(n), rest), depth);
  }

  lemma QuotedReads(t: string, rest: string)
    ensures var s := Quoted(t) + rest; s[0] == '"' && StringBody(s[1..], []) == Done(t, rest)
  {
    var s := Quoted(t) + rest;
    assert s[1..] == EscapeAll(t) + ("\"" + rest);
    StringReads(t, rest);
    assert t[0..] == t && t[..0] == [];
  }

  lemma ValueOfString(t: string, rest: string, depth: nat)
    ensures Value(Quoted(t) + rest, depth) == Done(Str(t), rest)
  {
    QuotedReads(t, rest);
    ValueOfScalar(Quoted(t) + rest, depth);
  }

  lemma ElementsSkip(s: string, depth: nat, acc: seq<Json>)
    ensures Elements(SkipSpace(s), depth, acc) == Elements(s, depth, acc)
  {
    ValueOfSkipped(s, depth);
  }

  lemma MembersSkip(s: string, depth: nat, acc: seq<Field>)
    ensures Members(SkipSpace(s), depth, acc) == Members(s, depth, acc)
  {
    SkipSpaceTwice(s);
    assert MemberKey(SkipSpace(s), acc) == MemberKey(s, acc);
  }

  lemma ElementsNext(s: string, depth: nat, acc: seq<Json>, v: Json, t: string)
    requires Value(s, depth) == Done(v, "," + t)
    ensures Elements(s, depth, acc) == Elements(t, depth, acc + [v])
  {
    var u := "," + t;
    assert SkipSpace(u) == u && u[1..] == t;
  }

  lemma ElementsLast(s: string, depth: nat, acc: seq<Json>, v: Json, w: string, t: string)
    requires AllSpace(w) && Value(s, depth) == Done(v, w + ("]" + t))
    ensures Elements(s, depth, acc) == Done(Arr(acc + [v]), t)
  {
    var u := "]" + t;
    SkipsSpace(w, u);
    assert SkipSpace(u) == u && u[1..] == t;
  }

  /** Reading one member up to the text after its value. */
  lemma MemberReads(w: string, key: string, layout: Layout, written: string, depth: nat, acc: seq<Field>)
    requires AllSpace(w)
    ensures var s := w + (Quoted(key) + (Colon(layout) + written));
      && (HasKey(acc, key) || Value(written, depth).Fail? ==> Members(s, depth, acc).Fail?)
      && (!HasKey(acc, key) && Value(written, depth).Done? ==>
            Members(s, depth, acc) ==
              AfterMember(SkipSpace(Value(written, depth).rest), depth, acc
                + [Field(key, Value(written, depth).value)]))
  {
    var quoted := Quoted(key) + (Colon(layout) + written);
    SkipsSpace(w, quoted);
    QuotedReads(key, Colon(layout) + written);
    assert SkipSpace(quoted) == quoted;
    ColonReads(layout, written, depth);
  }

  lemma ColonReads(layout: Layout, written: string, depth: nat)
    ensures var t := SkipSpace(Colon(layout) + written);
      t == Colon(layout) + written && t[0] == ':' && Value(t[1..], depth) == Value(written, depth)
  {
    var t := Colon(layout) + written;
    var space := if layout.Compact? then "" else " ";
    assert t[1..] == space + written;
    ValueAfterSpace(space, written, depth);
  }

  lemma AfterMemberNext(t: string, depth: nat, acc: seq<Field>)
    ensures AfterMember(SkipSpace("," + t), depth, acc) == Members(t, depth, acc)
  {
    var u := "," + t;
    assert SkipSpace(u) == u && u[1..] == t;
  }

  lemma AfterMemberLast(w: string, t: string, depth: nat, acc: seq<Field>)
    requires AllSpace(w)
    ensures AfterMember(SkipSpace(w + ("}" + t)), depth, acc) == Done(Obj(acc), t)
  {
    var u := "}" + t;
    SkipsSpace(w, u);
    assert SkipSpace(u) == u && u[1..] == t;
  }

  // ---- the text of containers ----------------------------------------------------------------

  lemma Associate(a: string, b: string, c: string, d: string)
    ensures a + b + c + d == a + (b + (c + d))
  {
  }

  /** The closing part of a container. */
  function Closing(layout: Layout, level: nat, bracket: string, rest: string): string {
    Break(layout, level) + (bracket + rest)
  }

  /** What follows the first of several written elements. */
  function AfterItem(show: real -> string, items: seq<Json>, layout: Layout, level: nat, rest: string): string
    requires items != []
  {
    if |items| == 1 then Closing(layout, level, "]", rest)
    else "," + (WriteItems(show, items[1..], layout, level + 1) + Closing(layout, level, "]", rest))
  }

  lemma ItemsText(show: real -> string, items: seq<Json>, layout: Layout, level: nat, rest: string)
    requires items != []
    ensures WriteItems(show, items, layout, level + 1) + Closing(layout, level, "]", rest)
         == Break(layout, level + 1)
             + (Write(show, items[0], layout, level + 1) + AfterItem(show, items, layout, level, rest))
  {
    var brk, first, close := Break(layout, level + 1), Write(show, items[0], layout, level + 1),
        Closing(layout, level, "]", rest);
    var more := if |items| == 1 then "" else "," + WriteItems(show, items[1..], layout, level + 1);
    assert WriteItems(show, items, layout, level + 1) == brk + first + more;
    Associate(brk, first, more, close);
    TailText(if |items| == 1 then "" else WriteItems(show, items[1..], layout, level + 1), close);
  }

  lemma TailText(text: string, close: string)
    ensures "" + close == close && ("," + text) + close == "," + (text + close)
  {
  }

  lemma AfterItemDelimits(show: real -> string, items: seq<Json>, layout: Layout, level: nat, rest: string)
    requires items != []
    ensures Delimits(AfterItem(show, items, layout, level, rest))
  {
    ClosingDelimits(layout, level, "]", rest);
  }

  lemma ClosingDelimits(layout: Layout, level: nat, bracket: string, rest: string)
    requires bracket == "]" || bracket == "}"
    ensures Delimits(Closing(layout, level, bracket, rest))
  {
    var brk, close := Break(layout, level), Closing(layout, level, bracket, rest);
    assert close[0] == if brk == [] then bracket[0] else brk[0];
  }

  function AfterField(show: real -> string, fields: seq<Field>, layout: Layout, level: nat, rest: string): string
    requires fields != []
  {
    if |fields| == 1 then Closing(layout, level, "}", rest)
    else "," + (WriteFields(show, fields[1..], layout, level + 1) + Closing(layout, level, "}", rest))
  }

  lemma Associate5(a: string, b: string, c: string, d: string, e: string, f: string)
    ensures a + b + c + d + e + f == a + (b + (c + (d + (e + f))))
  {
    assert a + b + c + d + e + f == (a + b) + (c + (d + (e + f)));
  }

  lemma FieldsText(show: real -> string, fields: seq<Field>, layout: Layout, level: nat, rest: string)
    requires fields != []
    ensures WriteFields(show, fields, layout, level + 1) + Closing(layout, level, "}", rest)
         == Break(layout, level + 1) + (Quoted(fields[0].key) + (Colon(layout)
            + (Write(show, fields[0].value, layout, level + 1) + AfterField(show, fields, layout, level, rest))))
  {
    var brk, close := Break(layout, level + 1), Closing(layout, level, "}", rest);
    var key, colon, value := Quoted(fields[0].key), Colon(layout), Write(show, fields[0].value, layout, level + 1);
    var more := if |fields| == 1 then "" else "," + WriteFields(show, fields[1..], layout, level + 1);
    assert WriteFields(show, fields, layout, level + 1) == brk + key + colon + value + more;
    Associate5(brk, key, colon, value, more, close);
    TailText(if |fields| == 1 then "" else WriteFields(show, fields[1..], layout, level + 1), close);
  }

  lemma AfterFieldDelimits(show: real -> string, fields: seq<Field>, layout: Layout, level: nat, rest: string)
    requires fields != []
    ensures Delimits(AfterField(show, fields, layout, level, rest))
  {
    ClosingDelimits(layout, level, "}", rest);
  }

  // ---- the round trip ------------------------------------------------------------------------

  /** Parsing a written value, followed by text that cannot continue it, gives
      the value back exactly when it fits; otherwise parsing fails. */
  lemma {:induction false} ValueReads(show: real -> string, v: Json, layout: Layout, level: nat, rest: string)
    requires NumbersRead(show, v) && Delimits(rest)
    ensures Value(Write(show, v, layout, level) + rest, level) == if Fits(v, level) then Done(v, rest) else Fail
    decreases v, 3
  {
    match v
    case Null => ValueOfWord("null", Null, rest, level);
    case Bool(b) => ValueOfWord(if b then "true" else "false", v, rest, level);
    case Num(n) =>
      if PrintsAsInteger(n) {
        ValueOfNumber(n.Floor, rest, level);
      } else {
        ValueOfShown(show, n, rest, level);
      }
    case Str(t) => ValueOfString(t, rest, level);
    case Arr(items) => ArrayReads(show, v, items, layout, level, rest);
    case Obj(fields) => ObjectReads(show, v, fields, layout, level, rest);
  }

  lemma ElidedArray(rest: string, depth: nat)
    requires depth >= MAX_DEPTH
    ensures Value("[...]" + rest, depth).Fail? && Value("{...}" + rest, depth).Fail?
  {
    assert "[...]" + rest == "[" + ("...]" + rest);
    assert "{...}" + rest == "{" + ("...}" + rest);
    ValueOfArray("...]" + rest, depth);
    ValueOfObject("...}" + rest, depth);
  }

  lemma EmptyContainers(rest: string, depth: nat)
    requires depth < MAX_DEPTH
    ensures Value("[]" + rest, depth) == Done(Arr([]), rest) && Value("{}" + rest, depth) == Done(Obj([]), rest)
  {
    assert "[]" + rest == "[" + ("]" + rest) && "{}" + rest == "{" + ("}" + rest);
    ValueOfArray("]" + rest, depth);
    ValueOfObject("}" + rest, depth);
    assert ("]" + rest)[1..] == rest && ("}" + rest)[1..] == rest;
    assert SkipSpace("]" + rest) == "]" + rest && SkipSpace("}" + rest) == "}" + rest;
  }

  lemma {:induction false} ArrayReads(show: real -> string, v: Json, items: seq<Json>, layout: Layout, level: nat,
      rest: string)
    requires v == Arr(items) && NumbersRead(show, v)
    ensures Value(Write(show, v, layout, level) + rest, level) == if Fits(v, level) then Done(v, rest) else Fail
    decreases v, 2
  {
    if level >= MAX_DEPTH {
      ElidedArray(rest, level);
    } else if items == [] {
      EmptyContainers(rest, level);
    } else {
      var inner := WriteItems(show, items, layout, level + 1) + Closing(layout, level, "]", rest);
      Bracketed("[", WriteItems(show, items, layout, level + 1), Break(layout, level), "]", rest);
      ValueOfArray(inner, level);
      ItemsStart(show, items, layout, level, rest);
      ElementsSkip(inner, level + 1, []);
      ItemsRead(show, items, layout, level, rest);
      Split(items, 0);
      assert Fits(v, level) <==> ItemsFit(items, level + 1);
    }
  }

  lemma Bracketed(open: string, text: string, brk: string, close: string, rest: string)
    ensures open + text + (brk + close) + rest == open + (text + (brk + (close + rest)))
  {
  }

  /** The first element is not a closing bracket. */
  lemma ItemsStart(show: real -> string, items: seq<Json>, layout: Layout, level: nat, rest: string)
    requires items != [] && NumbersRead(show, items[0])
    ensures var t := SkipSpace(WriteItems(show, items, layout, level + 1) + Closing(layout, level, "]", rest));
      t != [] && t[0] != ']'
  {
    var first, after := Write(show, items[0], layout, level + 1), AfterItem(show, items, layout, level, rest);
    ItemsText(show, items, layout, level, rest);
    BreakIsSpace(layout, level + 1);
    SkipsSpace(Break(layout, level + 1), first + after);
    WriteStarts(show, items[0], layout, level + 1);
    SkipsNothing(first, after);
  }

  lemma SkipsNothing(first: string, after: string)
    requires first != [] && !IsSpace(first[0])
    ensures SkipSpace(first + after) == first + after && (first + after)[0] == first[0]
  {
  }

  predicate ItemsFit(items: seq<Json>, level: nat) {
    forall i :: 0 <= i < |items| ==> Fits(items[i], level)
  }

  /** The first element of a written array, up to what follows it. */
  lemma {:induction false} FirstItemReads(show: real -> string, items: seq<Json>, layout: Layout, level: nat,
      rest: string)
    requires items != [] && NumbersRead(show, items[0])
    ensures Value(WriteItems(show, items, layout, level + 1) + Closing(layout, level, "]", rest), level + 1)
         == if Fits(items[0], level + 1) then Done(items[0], AfterItem(show, items, layout, level, rest)) else Fail
    decreases items, 0
  {
    var first, after := Write(show, items[0], layout, level + 1), AfterItem(show, items, layout, level, rest);
    ItemsText(show, items, layout, level, rest);
    AfterItemDelimits(show, items, layout, level, rest);
    BreakIsSpace(layout, level + 1);
    ValueAfterSpace(Break(layout, level + 1), first + after, level + 1);
    ValueReads(show, items[0], layout, level + 1, after);
  }

  lemma ElementsFail(s: string, depth: nat, acc: seq<Json>)
    requires Value(s, depth).Fail?
    ensures Elements(s, depth, acc).Fail?
  {
  }

  /** The text of the elements and of the end of their array. */
  function ItemsAndRest(show: real -> string, items: seq<Json>, layout: Layout, level: nat, rest: string): string
    requires items != []
  {
    WriteItems(show, items, layout, level + 1) + Closing(layout, level, "]", rest)
  }

  /** One turn of the element loop. */
  lemma ItemsStep(show: real -> string, items: seq<Json>, layout: Layout, level: nat, acc: seq<Json>, rest: string)
    requires items != [] && NumbersRead(show, items[0])
    ensures Elements(ItemsAndRest(show, items, layout, level, rest), level + 1, acc)
         == if !Fits(items[0], level + 1) then Fail
            else if |items| == 1 then Done(Arr(acc + [items[0]]), rest)
            else Elements(ItemsAndRest(show, items[1..], layout, level, rest), level + 1, acc + [items[0]])
    decreases items, 1
  {
    var s := ItemsAndRest(show, items, layout, level, rest);
    FirstItemReads(show, items, layout, level, rest);
    if !Fits(items[0], level + 1) {
      ElementsFail(s, level + 1, acc);
    } else if |items| == 1 {
      BreakIsSpace(layout, level);
      ElementsLast(s, level + 1, acc, items[0], Break(layout, level), rest);
    } else {
      ElementsNext(s, level + 1, acc, items[0], ItemsAndRest(show, items[1..], layout, level, rest));
    }
  }

  /** Turn `j` of a reading loop over `n` entries: a bad entry fails, the last good
      one ends with `all`, any other leads to the next turn. */
  predicate Turn(read: nat -> Parsed<Json>, good: nat -> bool, n: nat, all: Parsed<Json>, j: nat) {
    read(j) == if !good(j) then Fail else if j == n - 1 then all else read(j + 1)
  }

  predicate AllGood(good: nat -> bool, k: nat, n: nat) {
    forall j: nat :: k <= j < n ==> good(j)
  }

  /** Such a loop gives `all` exactly when every entry is good. */
  lemma {:induction false} LoopReads(read: nat -> Parsed<Json>, good: nat -> bool, n: nat, all: Parsed<Json>, k: nat)
    requires k < n
    requires forall j: nat :: k <= j < n ==> Turn(read, good, n, all, j)
    ensures read(k) == if AllGood(good, k, n) then all else Fail
    decreases n - k
  {
    assert Turn(read, good, n, all, k);
    if k + 1 < n {
      LoopReads(read, good, n, all, k + 1);
    }
  }

  /** The element loop after `j` elements. */
  function ItemsFrom(show: real -> string, items: seq<Json>, layout: Layout, level: nat, rest: string,
      j: nat): Parsed<Json> {
    if j < |items| then Elements(ItemsAndRest(show, items[j..], layout, level, rest), level + 1, items[..j]) else Fail
  }

  lemma {:induction false} ItemsTurn(show: real -> string, items: seq<Json>, layout: Layout, level: nat, rest: string,
      j: nat)
    requires j < |items| && NumbersRead(show, items[j])
    ensures ItemsFrom(show, items, layout, level, rest, j)
         == if !Fits(items[j], level + 1) then Fail
            else if j == |items| - 1 then Done(Arr(items), rest)
            else ItemsFrom(show, items, layout, level, rest, j + 1)
    decreases items, 2
  {
    Split(items, j);
    ItemsStep(show, items[j..], layout, level, items[..j], rest);
  }

  lemma {:induction false} ItemsRead(show: real -> string, items: seq<Json>, layout: Layout, level: nat, rest: string)
    requires items != [] && forall i :: 0 <= i < |items| ==> NumbersRead(show, items[i])
    ensures ItemsFrom(show, items, layout, level, rest, 0)
        == if ItemsFit(items, level + 1) then Done(Arr(items), rest) else Fail
    decreases items, 3
  {
    var n, all := |items|, Done(Arr(items), rest);
    var read := (j: nat) => ItemsFrom(show, items, layout, level, rest, j);
    var good := (j: nat) => j < n && Fits(items[j], level + 1);
    forall j: nat | j < n
      ensures Turn(read, good, n, all, j)
    {
      ItemsTurn(show, items, layout, level, rest, j);
    }
    LoopReads(read, good, n, all, 0);
    AllItemsGood(items, level + 1, good);
  }

  lemma AllItemsGood(items: seq<Json>, level: nat, good: nat -> bool)
    requires forall j: nat :: j < |items| ==> good(j) == Fits(items[j], level)
    ensures AllGood(good, 0, |items|) <==> ItemsFit(items, level)
  {
    if AllGood(good, 0, |items|) {
      forall i | 0 <= i < |items|
        ensures Fits(items[i], level)
      {
        assert good(i);
      }
    }
  }

  lemma Split<T>(s: seq<T>, j: nat)
    requires j < |s|
    ensures s[j..][0] == s[j] && s[j..][1..] == s[j + 1..] && s[..j] + [s[j..][0]] == s[..j + 1]
    ensures j == 0 ==> s[j..] == s && s[..j] == []
    ensures j == |s| - 1 ==> s[..j + 1] == s
  {
  }

  lemma {:induction false} ObjectReads(show: real -> string, v: Json, fields: seq<Field>, layout: Layout, level: nat,
      rest: string)
    requires v == Obj(fields) && NumbersRead(show, v)
    ensures Value(Write(show, v, layout, level) + rest, level) == if Fits(v, level) then Done(v, rest) else Fail
    decreases v, 2
  {
    if level >= MAX_DEPTH {
      ElidedArray(rest, level);
    } else if fields == [] {
      EmptyContainers(rest, level);
    } else {
      var inner := WriteFields(show, fields, layout, level + 1) + Closing(layout, level, "}", rest);
      Bracketed("{", WriteFields(show, fields, layout, level + 1), Break(layout, level), "}", rest);
      ValueOfObject(inner, level);
      FieldsStart(show, fields, layout, level, rest);
      MembersSkip(inner, level + 1, []);
      FieldsRead(show, fields, layout, level, rest);
      Split(fields, 0);
      FitsObject(fields, level);
    }
  }

  lemma FitsObject(fields: seq<Field>, level: nat)
    requires level < MAX_DEPTH
    ensures Fits(Obj(fields), level) <==> FieldsFit(fields, level + 1)
  {
    var inner := level + 1;
    KeysBefore(fields);
    if FieldsFit(fields, inner) {
      forall i | 0 <= i < |fields|
        ensures !HasKey(fields[..i], fields[i].key) && Fits(fields[i].value, inner)
      {
        assert FieldFits(fields, inner, i);
      }
    }
  }

  lemma FieldsStart(show: real -> string, fields: seq<Field>, layout: Layout, level: nat, rest: string)
    requires fields != []
    ensures var t := SkipSpace(WriteFields(show, fields, layout, level + 1) + Closing(layout, level, "}", rest));
      t != [] && t[0] != '}'
  {
    var key := Quoted(fields[0].key);
    var after := Colon(layout)
        + (Write(show, fields[0].value, layout, level + 1) + AfterField(show, fields, layout, level, rest));
    FieldsText(show, fields, layout, level, rest);
    BreakIsSpace(layout, level + 1);
    SkipsSpace(Break(layout, level + 1), key + after);
    SkipsNothing(key, after);
  }

  /** Each key differs from the ones before it, and each value fits. */
  predicate FieldsFit(fields: seq<Field>, level: nat) {
    forall i: nat :: i < |fields| ==> FieldFits(fields, level, i)
  }

  lemma KeysBefore(fields: seq<Field>)
    ensures UniqueKeys(fields) <==> forall i :: 0 <= i < |fields| ==> !HasKey(fields[..i], fields[i].key)
  {
    if forall i :: 0 <= i < |fields| ==> !HasKey(fields[..i], fields[i].key) {
      forall i, j | 0 <= i < j < |fields|
        ensures fields[i].key != fields[j].key
      {
        assert fields[..j][i] == fields[i] && !HasKey(fields[..j], fields[j].key);
      }
    }
  }

  /** The first member of a written object, up to what follows it. */
  lemma {:induction false} FirstFieldReads(show: real -> string, fields: seq<Field>, layout: Layout, level: nat,
                                           acc: seq<Field>, rest: string)
    requires fields != [] && NumbersRead(show, fields[0].value)
    ensures Members(WriteFields(show, fields, layout, level + 1) + Closing(layout, level, "}", rest), level + 1, acc)
         == if HasKey(acc, fields[0].key) || !Fits(fields[0].value, level + 1) then Fail
            else AfterMember(SkipSpace(AfterField(show, fields, layout, level, rest)), level + 1, acc + [fields[0]])
    decreases fields, 0
  {
    var f, after := fields[0], AfterField(show, fields, layout, level, rest);
    var written := Write(show, f.value, layout, level + 1) + after;
    FieldsText(show, fields, layout, level, rest);
    AfterFieldDelimits(show, fields, layout, level, rest);
    BreakIsSpace(layout, level + 1);
    MemberReads(Break(layout, level + 1), f.key, layout, written, level + 1, acc);
    ValueReads(show, f.value, layout, level + 1, after);
    assert Field(f.key, f.value) == f;
  }

  /** The text of the members and of the end of their object. */
  function FieldsAndRest(show: real -> string, fields: seq<Field>, layout: Layout, level: nat, rest: string): string
    requires fields != []
  {
    WriteFields(show, fields, layout, level + 1) + Closing(layout, level, "}", rest)
  }

  /** One turn of the member loop. */
  lemma FieldsStep(show: real -> string, fields: seq<Field>, layout: Layout, level: nat, acc: seq<Field>, rest: string)
    requires fields != [] && NumbersRead(show, fields[0].value)
    ensures Members(FieldsAndRest(show, fields, layout, level, rest), level + 1, acc)
         == if HasKey(acc, fields[0].key) || !Fits(fields[0].value, level + 1) then Fail
            else if |fields| == 1 then Done(Obj(acc + [fields[0]]), rest)
            else Members(FieldsAndRest(show, fields[1..], layout, level, rest), level + 1, acc + [fields[0]])
    decreases fields, 1
  {
    FirstFieldReads(show, fields, layout, level, acc, rest);
    if |fields| == 1 {
      BreakIsSpace(layout, level);
      AfterMemberLast(Break(layout, level), rest, level + 1, acc + [fields[0]]);
    } else {
      AfterMemberNext(FieldsAndRest(show, fields[1..], layout, level, rest), level + 1, acc + [fields[0]]);
    }
  }

  /** The member loop after `j` members. */
  function FieldsFrom(show: real -> string, fields: seq<Field>, layout: Layout, level: nat, rest: string,
      j: nat): Parsed<Json> {
    if j < |fields| then Members(FieldsAndRest(show, fields[j..], layout, level, rest), level + 1, fields[..j])
        else Fail
  }

  /** Field `i` may follow the ones before it. */
  predicate FieldFits(fields: seq<Field>, level: nat, i: nat)
    requires i < |fields|
  {
    !HasKey(fields[..i], fields[i].key) && Fits(fields[i].value, level)
  }

  lemma {:induction false} FieldsTurn(show: real -> string, fields: seq<Field>, layout: Layout, level: nat,
      rest: string, j: nat)
    requires j < |fields| && NumbersRead(show, fields[j].value)
    ensures FieldsFrom(show, fields, layout, level, rest, j)
         == if !FieldFits(fields, level + 1, j) then Fail
            else if j == |fields| - 1 then Done(Obj(fields), rest)
            else FieldsFrom(show, fields, layout, level, rest, j + 1)
    decreases fields, 2
  {
    Split(fields, j);
    FieldsStep(show, fields[j..], layout, level, fields[..j], rest);
  }

  lemma {:induction false} FieldsRead(show: real -> string, fields: seq<Field>, layout: Layout, level: nat,
      rest: string)
    requires fields != [] && forall i :: 0 <= i < |fields| ==> NumbersRead(show, fields[i].value)
    ensures FieldsFrom(show, fields, layout, level, rest, 0)
        == if FieldsFit(fields, level + 1) then Done(Obj(fields), rest) else Fail
    decreases fields, 3
  {
    var n, all := |fields|, Done(Obj(fields), rest);
    var read := (j: nat) => FieldsFrom(show, fields, layout, level, rest, j);
    var good := (j: nat) => j < n && FieldFits(fields, level + 1, j);
    forall j: nat | j < n
      ensures Turn(read, good, n, all, j)
    {
      FieldsTurn(show, fields, layout, level, rest, j);
    }
    LoopReads(read, good, n, all, 0);
    AllFieldsGood(fields, level + 1, good);
  }

  lemma AllFieldsGood(fields: seq<Field>, level: nat, good: nat -> bool)
    requires forall j: nat :: j < |fields| ==> good(j) == FieldFits(fields, level, j)
    ensures AllGood(good, 0, |fields|) <==> FieldsFit(fields, level)
  {
    if AllGood(good, 0, |fields|) {
      forall i | 0 <= i < |fields|
        ensures FieldFits(fields, level, i)
      {
        assert good(i);
      }
    }
  }

  /** Round trip. The printed document parses back to the same value if and only
      if it fits; otherwise it is refused. */
  lemma DocumentReads(show: real -> string, v: Json, layout: Layout)
    requires NumbersRead(show, v)
    ensures Document(Write(show, v, layout, 0)) == if Fits(v, 0) then Done(v, []) else Fail
  {
    var s := Write(show, v, layout, 0);
    ValueReads(show, v, layout, 0, []);
    assert s + [] == s;
  }

  // ---- one line --------------------------------------------------------------------------

  predicate OneLine(s: string) {
    '\n' !in s
  }

  lemma {:induction false} EscapedOneLine(s: string)
    ensures OneLine(EscapeAll(s))
  {
    if s != [] {
      EscapedOneLine(s[1..]);
    }
  }

  lemma IntegerOneLine(n: int)
    ensures OneLine(Integer(n))
  {
    var s := Decimal(if n < 0 then -n else n);
    DecimalReads(if n < 0 then -n else n);
    assert forall i :: 0 <= i < |s| ==> IsDigit(s[i]);
  }

  lemma BracketedOneLine(open: string, text: string, brk: string, close: string)
    requires OneLine(open) && OneLine(text) && OneLine(brk) && OneLine(close)
    ensures OneLine(open + text + (brk + close))
  {
  }

  lemma QuotedOneLine(s: string)
    ensures OneLine(Quoted(s))
  {
    EscapedOneLine(s);
  }

  /** Compact output never contains a raw newline, at any nesting. */
  lemma {:induction false} CompactOneLine(show: real -> string, v: Json, level: nat)
    requires forall x :: OneLine(show(x))
    ensures OneLine(Write(show, v, Compact, level))
    decreases v, 1
  {
    match v
    case Num(n) => IntegerOneLine(n.Floor);
    case Str(s) => QuotedOneLine(s);
    case Arr(items) =>
      if level < MAX_DEPTH && items != [] {
        ItemsOneLine(show, items, level + 1);
        BracketedOneLine("[", WriteItems(show, items, Compact, level + 1), "", "]");
      }
    case Obj(fields) =>
      if level < MAX_DEPTH && fields != [] {
        FieldsOneLine(show, fields, level + 1);
        BracketedOneLine("{", WriteFields(show, fields, Compact, level + 1), "", "}");
      }
    case _ =>
  }

  lemma {:induction false} ItemsOneLine(show: real -> string, items: seq<Json>, level: nat)
    requires items != [] && forall x :: OneLine(show(x))
    ensures OneLine(WriteItems(show, items, Compact, level))
    decreases items, 0
  {
    CompactOneLine(show, items[0], level);
    if |items| > 1 {
      ItemsOneLine(show, items[1..], level);
    }
  }

  lemma {:induction false} FieldsOneLine(show: real -> string, fields: seq<Field>, level: nat)
    requires fields != [] && forall x :: OneLine(show(x))
    ensures OneLine(WriteFields(show, fields, Compact, level))
    decreases fields, 0
  {
    QuotedOneLine(fields[0].key);
    CompactOneLine(show, fields[0].value, level);
    if |fields| > 1 {
      FieldsOneLine(show, fields[1..], level);
    }
  }
}
