/** The parser as it runs: a cursor over the text with a nesting counter. Every
    method is proved to do what the corresponding function on text does. */
module JsonParser {
  import opened Results
  import opened JsonText

  /** A parsing outcome and the text left over agree with the function's result. */
  predicate Agrees<T(==)>(p: Parsed<T>, r: Option<T>, rest: string) {
    match p
    case Fail => r == None
    case Done(v, after) => r == Some(v) && rest == after
  }

  lemma Tail<T>(b: seq<T>, i: nat, k: nat)
    requires i + k <= |b|
    ensures b[i..][k..] == b[i + k..]
  {
  }

  class Parser {
    const b: string
    var i: nat
    var depth: nat

    constructor (text: string)
      ensures Valid() && Rest() == text && depth == 0 && b == text
    {
      b := text;
      i := 0;
      depth := 0;
    }

    ghost predicate Valid()
      reads this
    {
      i <= |b|
    }

    /** The text not yet consumed. */
    ghost function Rest(): string
      requires Valid()
      reads this
    {
      b[i..]
    }

    function Peek(): (c: Option<char>)
      requires Valid()
      reads this
      ensures c == if Rest() == [] then None else Some(Rest()[0])
    {
      if i < |b| then Some(b[i]) else None
    }

    method Ws()
      requires Valid()
      modifies this`i
      ensures Valid() && Rest() == SkipSpace(old(Rest())) && i >= old(i)
    {
      while i < |b| && IsSpace(b[i])
        invariant old(i) <= i <= |b|
        invariant SkipSpace(b[i..]) == SkipSpace(old(b[i..]))
      {
        Tail(b, i, 1);
        i := i + 1;
      }
    }

    /** Consumes the longest run of digits. */
    method Digits() returns (n: nat)
      requires Valid()
      modifies this`i
      ensures Valid() && n == DigitRun(old(Rest())) && i == old(i) + n
    {
      n := 0;
      while i < |b| && IsDigit(b[i])
        invariant i == old(i) + n <= |b|
        invariant n + DigitRun(b[i..]) == DigitRun(old(b[i..]))
      {
        Tail(b, i, 1);
        i, n := i + 1, n + 1;
      }
    }

    method ReadLiteral(word: string, v: Json) returns (r: Option<Json>)
      requires Valid()
      modifies this`i
      ensures Valid() && Agrees(Literal(old(Rest()), word, v), r, Rest()) && i >= old(i)
    {
      if word <= b[i..] {
        Tail(b, i, |word|);
        i := i + |word|;
        r := Some(v);
      } else {
        r := None;
      }
    }

    method ReadWhole() returns (r: Option<nat>)
      requires Valid()
      modifies this`i
      ensures Valid() && Agrees(IntegerPart(old(Rest())), r, Rest()) && i >= old(i)
    {
      var start := i;
      var c := Peek();
      if c == Some('0') {
        Tail(b, i, 1);
        i := i + 1;
        r := if i < |b| && IsDigit(b[i]) then None else Some(0);
      } else if c.Some? && IsDigit(c.value) {
        var n := Digits();
        Tail(b, start, n);
        assert b[start..][..n] == b[start..i];
        r := Some(DecimalValue(b[start..i]));
      } else {
        r := None;
      }
    }

    method ReadFraction() returns (r: Option<Places>)
      requires Valid()
      modifies this`i
      ensures Valid() && Agrees(Fraction(old(Rest())), r, Rest()) && i >= old(i)
    {
      if Peek() != Some('.') {
        return Some(Places(0, 0));
      }
      Tail(b, i, 1);
      i := i + 1;
      var start := i;
      var n := Digits();
      Tail(b, start, n);
      assert b[start..][..n] == b[start..i];
      r := if n == 0 then None else Some(Places(DecimalValue(b[start..i]), n));
    }

    method ReadPower(negative: bool) returns (r: Option<int>)
      requires Valid()
      modifies this`i
      ensures Valid() && Agrees(Power(old(Rest()), negative), r, Rest()) && i >= old(i)
    {
      var start := i;
      var n := Digits();
      Tail(b, start, n);
      assert b[start..][..n] == b[start..i];
      if n == 0 {
        return None;
      }
      var power: int := DecimalValue(b[start..i]);
      r := Some(if negative then -power else power);
    }

    method ReadExponent() returns (r: Option<int>)
      requires Valid()
      modifies this`i
      ensures Valid() && Agrees(Exponent(old(Rest())), r, Rest()) && i >= old(i)
    {
      if Peek() != Some('e') && Peek() != Some('E') {
        return Some(0);
      }
      Tail(b, i, 1);
      i := i + 1;
      var negative := Peek() == Some('-');
      if negative || Peek() == Some('+') {
        Tail(b, i - 1, 2);
        i := i + 1;
      }
      r := ReadPower(negative);
    }

    method ReadMagnitude() returns (r: Option<Parts>)
      requires Valid()
      modifies this`i
      ensures Valid() && Agrees(Magnitude(old(Rest())), r, Rest()) && i >= old(i)
    {
      var whole := ReadWhole();
      if whole == None {
        return None;
      }
      ghost var afterWhole := Rest();
      var fraction := ReadFraction();
      if fraction == None {
        return None;
      }
      ghost var afterFraction := Rest();
      var power := ReadExponent();
      if power == None {
        return None;
      }
      r := Some(Parts(whole.value, fraction.value, power.value));
      MagnitudeParts(old(Rest()), whole.value, afterWhole, fraction.value, afterFraction, power.value, Rest());
    }

    method ReadNumber() returns (r: Option<Json>)
      requires Valid() && Rest() != []
      modifies this`i
      ensures Valid() && Agrees(Number(old(Rest())), r, Rest()) && i >= old(i)
    {
      var negative := Peek() == Some('-');
      if negative {
        Tail(b, i, 1);
        i := i + 1;
      }
      ghost var t := Rest();
      var m := ReadMagnitude();
      NumberAgrees(old(Rest()), t, m, Rest());
      if m == None || !InFiniteRange(Amount(m.value)) {
        return None;
      }
      r := Some(Num(if negative then -Amount(m.value) else Amount(m.value)));
    }

    method ReadHex4() returns (r: Option<nat>)
      requires Valid()
      modifies this`i
      ensures Valid() && Agrees(Hex4(old(Rest())), r, Rest()) && i >= old(i)
    {
      ghost var s := b[i..];
      var v: nat, k := 0, 0;
      while k < 4
        invariant 0 <= k <= 4 && i == old(i) + k <= |b|
        invariant AllHex(s, k) && v == HexPrefix(s, k)
      {
        if i == |b| {
          return None;
        }
        assert b[i] == s[k];
        if HexValue(b[i]) < 0 {
          return None;
        }
        v := v * 16 + HexValue(b[i]);
        i, k := i + 1, k + 1;
      }
      Tail(b, old(i), 4);
      HexPrefixOfFour(s);
      r := Some(v);
    }

    method ReadUnicodeEscape() returns (r: Option<char>)
      requires Valid()
      modifies this`i
      ensures Valid() && Agrees(UnicodeEscape(old(Rest())), r, Rest()) && i >= old(i)
    {
      var high := ReadHex4();
      if high == None {
        return None;
      }
      if 0xD800 <= high.value <= 0xDBFF {
        if Peek() == Some('\\') && i + 1 < |b| && b[i + 1] == 'u' {
          Tail(b, i, 2);
          i := i + 2;
          var low := ReadHex4();
          if low == None || !(0xDC00 <= low.value <= 0xDFFF) {
            return None;
          }
          return Some((0x1_0000 + (high.value - 0xD800) * 0x400 + (low.value - 0xDC00)) as char);
        }
        return None;
      }
      r := if 0xDC00 <= high.value <= 0xDFFF then None else Some(high.value as char);
    }

    /** The escape after a backslash, the cursor being past it. */
    method ReadEscape() returns (r: Option<char>)
      requires Valid()
      modifies this`i
      ensures Valid() && Agrees(EscapeSequence(old(Rest())), r, Rest()) && i >= old(i)
    {
      var e := Peek();
      if e == None {
        return None;
      }
      Tail(b, i, 1);
      i := i + 1;
      if IsShortEscape(e.value) {
        r := Some(ShortEscape(e.value));
      } else if e.value == 'u' {
        r := ReadUnicodeEscape();
      } else {
        r := None;
      }
    }

    /** One piece of a string: a character, or the closing quote. */
    method ReadStringItem() returns (r: Option<Option<char>>)
      requires Valid()
      modifies this`i
      ensures Valid() && Agrees(StringItem(old(Rest())), r, Rest()) && i >= old(i)
      ensures r.Some? ==> i > old(i)
    {
      var c := Peek();
      if c == None || c.value < ' ' {
        return None;
      }
      Tail(b, i, 1);
      i := i + 1;
      if c.value == '"' {
        return Some(None);
      }
      if c.value == '\\' {
        var e := ReadEscape();
        return if e == None then None else Some(e);
      }
      r := Some(c);
    }

    method ReadString() returns (r: Option<string>)
      requires Valid() && Rest() != []
      modifies this`i
      ensures Valid() && Agrees(StringBody(old(Rest())[1..], []), r, Rest()) && i > old(i)
    {
      Tail(b, i, 1);
      i := i + 1;
      ghost var whole := StringBody(Rest(), []);
      var s := [];
      while true
        invariant old(i) < i <= |b|
        invariant StringBody(Rest(), s) == whole
        decreases |b| - i
      {
        ghost var start := Rest();
        var item := ReadStringItem();
        StringByItem(start, s, item, Rest());
        if item == None {
          return None;
        }
        if item.value == None {
          return Some(s);
        }
        s := s + [item.value.value];
      }
    }

    method ReadScalar() returns (r: Option<Json>)
      requires Valid() && Rest() != []
      modifies this`i
      ensures Valid() && Agrees(Scalar(old(Rest())), r, Rest()) && i >= old(i)
    {
      var c := b[i];
      if c == '-' || IsDigit(c) {
        r := ReadNumber();
      } else if c == '"' {
        var s := ReadString();
        r := if s == None then None else Some(Str(s.value));
      } else if c == 't' {
        r := ReadLiteral("true", Bool(true));
      } else if c == 'f' {
        r := ReadLiteral("false", Bool(false));
      } else if c == 'n' {
        r := ReadLiteral("null", Null);
      } else {
        r := None;
      }
    }

    method ReadValue() returns (r: Option<Json>)
      requires Valid()
      modifies this`i, this`depth
      ensures Valid() && depth == old(depth) && i >= old(i)
      ensures Agrees(Value(old(Rest()), depth), r, Rest())
      ensures r.Some? ==> i > old(i)
      decreases |b| - i, 1
    {
      Ws();
      var c := Peek();
      if c == None || ((c.value == '{' || c.value == '[') && depth >= MAX_DEPTH) {
        return None;
      }
      if c.value == '{' {
        depth := depth + 1;
        r := ReadObject();
        depth := depth - 1;
      } else if c.value == '[' {
        depth := depth + 1;
        r := ReadArray();
        depth := depth - 1;
      } else {
        r := ReadScalar();
      }
    }

    /** A comma, or the closing bracket, after optional space. */
    method ReadSeparator(close: char) returns (r: Option<bool>)
      requires Valid() && close != ','
      modifies this`i
      ensures Valid() && i >= old(i) && Agrees(Separator(old(Rest()), close), r, Rest())
      ensures r.Some? ==> i > old(i)
    {
      Ws();
      var c := Peek();
      if c != Some(',') && c != Some(close) {
        return None;
      }
      Tail(b, i, 1);
      i := i + 1;
      r := Some(c == Some(','));
    }

    method ReadArray() returns (r: Option<Json>)
      requires Valid() && Rest() != []
      modifies this`i, this`depth
      ensures Valid() && depth == old(depth) && i > old(i)
      ensures Agrees(ArrayAfter(SkipSpace(old(Rest())[1..]), depth), r, Rest())
      decreases |b| - i, 0
    {
      Tail(b, i, 1);
      i := i + 1;
      Ws();
      if Peek() == Some(']') {
        Tail(b, i, 1);
        i := i + 1;
        return Some(Arr([]));
      }
      r := ReadElements();
    }

    method ReadElements() returns (r: Option<Json>)
      requires Valid()
      modifies this`i, this`depth
      ensures Valid() && depth == old(depth) && i >= old(i)
      ensures Agrees(Elements(old(Rest()), depth, []), r, Rest())
      decreases |b| - i, 2
    {
      ghost var whole := Elements(Rest(), depth, []);
      var a := [];
      while true
        invariant old(i) <= i <= |b| && depth == old(depth)
        invariant Elements(Rest(), depth, a) == whole
        decreases |b| - i
      {
        ghost var start := Rest();
        var v := ReadValue();
        if v == None {
          return None;
        }
        ghost var afterValue := Rest();
        var more := ReadSeparator(']');
        ElementsTurn(start, depth, a, v.value, afterValue, more, Rest());
        a := a + [v.value];
        if more == None {
          return None;
        }
        if !more.value {
          return Some(Arr(a));
        }
      }
    }

    /** A key not among those seen, and the colon after it. */
    method ReadKey(ghost m: seq<Field>, seen: set<string>) returns (r: Option<string>)
      requires Valid() && seen == Keys(m)
      modifies this`i
      ensures Valid() && Agrees(MemberKey(old(Rest()), m), r, Rest()) && i >= old(i)
    {
      Ws();
      if Peek() != Some('"') {
        return None;
      }
      r := ReadString();
      if r == None {
        return None;
      }
      KeysMeaning(m, r.value);
      if r.value in seen {
        return None;
      }
      Ws();
      if Peek() != Some(':') {
        return None;
      }
      Tail(b, i, 1);
      i := i + 1;
    }

    method ReadObject() returns (r: Option<Json>)
      requires Valid() && Rest() != []
      modifies this`i, this`depth
      ensures Valid() && depth == old(depth) && i > old(i)
      ensures Agrees(ObjectAfter(SkipSpace(old(Rest())[1..]), depth), r, Rest())
      decreases |b| - i, 0
    {
      Tail(b, i, 1);
      i := i + 1;
      Ws();
      if Peek() == Some('}') {
        Tail(b, i, 1);
        i := i + 1;
        return Some(Obj([]));
      }
      r := ReadMembers();
    }

    method ReadMembers() returns (r: Option<Json>)
      requires Valid()
      modifies this`i, this`depth
      ensures Valid() && depth == old(depth) && i >= old(i)
      ensures Agrees(Members(old(Rest()), depth, []), r, Rest())
      decreases |b| - i, 2
    {
      ghost var whole := Members(Rest(), depth, []);
      var m: seq<Field> := [];
      var seen: set<string> := {};
      while true
        invariant old(i) <= i <= |b| && depth == old(depth)
        invariant seen == Keys(m)
        invariant Members(Rest(), depth, m) == whole
        decreases |b| - i
      {
        ghost var start := Rest();
        var k := ReadKey(m, seen);
        if k == None {
          return None;
        }
        seen := seen + {k.value};
        ghost var afterKey := Rest();
        var v := ReadValue();
        if v == None {
          return None;
        }
        ghost var afterValue := Rest();
        var more := ReadSeparator('}');
        MembersTurn(start, depth, m, k.value, afterKey, v.value, afterValue, more, Rest());
        KeysAppend(m, Field(k.value, v.value));
        m := m + [Field(k.value, v.value)];
        if more == None {
          return None;
        }
        if !more.value {
          return Some(Obj(m));
        }
      }
    }
  }

  function Separator(s: string, close: char): Parsed<bool> {
    var t := SkipSpace(s);
    if t == [] || (t[0] != ',' && t[0] != close) then Fail else Done(t[0] == ',', t[1..])
  }

  lemma MagnitudeParts(s: string, whole: nat, s1: string, fraction: Places, s2: string, power: int, s3: string)
    requires IntegerPart(s) == Done(whole, s1) && Fraction(s1) == Done(fraction, s2) && Exponent(s2) == Done(power, s3)
    ensures Magnitude(s) == Done(Parts(whole, fraction, power), s3)
  {
  }

  lemma NumberAgrees(s: string, t: string, m: Option<Parts>, rest: string)
    requires s != [] && t == (if s[0] == '-' then s[1..] else s) && Agrees(Magnitude(t), m, rest)
    ensures Agrees(Number(s), if m == None || !InFiniteRange(Amount(m.value)) then None
        else Some(Num(if s[0] == '-' then -Amount(m.value) else Amount(m.value))), rest)
  {
  }

  /** The next piece of a string: none for the closing quote. */
  function StringItem(s: string): Parsed<Option<char>> {
    if s == [] || s[0] < ' ' then Fail
    else if s[0] == '"' then Done(None, s[1..])
    else if s[0] == '\\' then
      match EscapeSequence(s[1..])
      case Fail => Fail
      case Done(c, rest) => Done(Some(c), rest)
    else Done(Some(s[0]), s[1..])
  }

  /** The string grammar reads piece after piece. */
  lemma StringByItem(s: string, acc: string, item: Option<Option<char>>, rest: string)
    requires Agrees(StringItem(s), item, rest)
    ensures StringBody(s, acc) ==
      if item == None then Fail
      else if item.value == None then Done(acc, rest)
      else StringBody(rest, acc + [item.value.value])
  {
  }

  lemma ElementsTurn(s: string, depth: nat, a: seq<Json>, v: Json, s1: string, more: Option<bool>, s2: string)
    requires Value(s, depth) == Done(v, s1) && Agrees(Separator(s1, ']'), more, s2)
    ensures Elements(s, depth, a) ==
      if more == None then Fail
      else if more.value then Elements(s2, depth, a + [v])
      else Done(Arr(a + [v]), s2)
  {
  }

  lemma MembersTurn(s: string, depth: nat, m: seq<Field>, key: string, s1: string, v: Json, s2: string,
                    more: Option<bool>, s3: string)
    requires MemberKey(s, m) == Done(key, s1) && Value(s1, depth) == Done(v, s2) && Agrees(Separator(s2, '}'), more, s3)
    ensures Members(s, depth, m) ==
      if more == None then Fail
      else if more.value then Members(s3, depth, m + [Field(key, v)])
      else Done(Obj(m + [Field(key, v)]), s3)
  {
  }

  predicate AllHex(s: string, k: nat)
    requires k <= |s|
  {
    forall j :: 0 <= j < k ==> HexValue(s[j]) >= 0
  }

  lemma HexPrefixOfFour(s: string)
    requires |s| >= 4 && AllHex(s, 4)
    ensures Hex4(s) == Done(HexPrefix(s, 4), s[4..])
  {
    assert HexPrefix(s, 1) == HexValue(s[0]);
    assert HexPrefix(s, 2) == HexPrefix(s, 1) * 16 + HexValue(s[1]);
    assert HexPrefix(s, 3) == HexPrefix(s, 2) * 16 + HexValue(s[2]);
  }

  function HexPrefix(s: string, k: nat): int
    requires k <= |s|
  {
    if k == 0 then 0 else HexPrefix(s, k - 1) * 16 + HexValue(s[k - 1])
  }

  function Keys(fields: seq<Field>): set<string> {
    set i | 0 <= i < |fields| :: fields[i].key
  }

  lemma KeysMeaning(fields: seq<Field>, k: string)
    ensures k in Keys(fields) <==> HasKey(fields, k)
  {
  }

  lemma KeysAppend(fields: seq<Field>, f: Field)
    ensures Keys(fields + [f]) == Keys(fields) + {f.key}
  {
    var more := fields + [f];
    assert more[|fields|] == f;
    assert forall i :: 0 <= i < |fields| ==> more[i] == fields[i];
  }

  function ArrayAfter(body: string, depth: nat): Parsed<Json> {
    if body != [] && body[0] == ']' then Done(Arr([]), body[1..]) else Elements(body, depth, [])
  }

  function ObjectAfter(body: string, depth: nat): Parsed<Json> {
    if body != [] && body[0] == '}' then Done(Obj([]), body[1..]) else Members(body, depth, [])
  }

  /** `parse_with_limit`: the size of the text in UTF-8 bytes is given. */
  method ParseWithLimit(text: string, bytes: nat, limit: nat) returns (r: Option<Json>)
    ensures r == if bytes <= limit && Document(text).Done? then Some(Document(text).value) else None
  {
    if bytes > limit {
      return None;
    }
    var p := new Parser(text);
    p.Ws();
    SkipTwice(text);
    r := p.ReadValue();
    if r == None {
      return None;
    }
    p.Ws();
    assert p.Rest() == [] <==> p.i == |p.b|;
    if p.i != |p.b| {
      return None;
    }
  }

  lemma SkipTwice(s: string)
    ensures Value(SkipSpace(s), 0) == Value(s, 0)
  {
    assert SkipSpace(SkipSpace(s)) == SkipSpace(s);
  }
}
