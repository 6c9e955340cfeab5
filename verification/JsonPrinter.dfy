/** The serializer as it runs: text is appended to a growing string, containers
    by loops over their entries. */
module JsonPrinter {
  import opened JsonText

  /** Appends the rendering of a string. */
  method AppendQuoted(out: string, s: string) returns (r: string)
    ensures r == out + Quoted(s)
  {
    r := out + "\"";
    ghost var start := r;
    var i := 0;
    while i < |s|
      invariant 0 <= i <= |s| && r + EscapeAll(s[i..]) == start + EscapeAll(s)
    {
      EscapeTurn(r, s, i);
      r := r + Escape(s[i]);
      i := i + 1;
    }
    assert s[|s|..] == [] && r + [] == r;
    r := r + "\"";
    QuotedParts(out, "\"", EscapeAll(s), "\"");
  }

  lemma EscapeTurn(r: string, s: string, i: nat)
    requires i < |s|
    ensures r + EscapeAll(s[i..]) == (r + Escape(s[i])) + EscapeAll(s[i + 1..])
  {
    assert s[i..][0] == s[i] && s[i..][1..] == s[i + 1..];
  }

  lemma QuotedParts(a: string, b: string, c: string, d: string)
    ensures ((a + b) + c) + d == a + (b + c + d)
  {
  }

  /** What is still to be written when `k` elements are done. */
  function ItemsLeft(show: real -> string, items: seq<Json>, layout: Layout, level: nat, k: nat): string
    requires k <= |items|
  {
    if k == |items| then "" else (if k > 0 then "," else "") + WriteItems(show, items[k..], layout, level)
  }

  function FieldsLeft(show: real -> string, fields: seq<Field>, layout: Layout, level: nat, k: nat): string
    requires k <= |fields|
  {
    if k == |fields| then "" else (if k > 0 then "," else "") + WriteFields(show, fields[k..], layout, level)
  }

  /** One element: its separator, line break and text. */
  lemma ItemTurn(show: real -> string, items: seq<Json>, layout: Layout, level: nat, k: nat, r: string)
    requires k < |items|
    ensures r + ItemsLeft(show, items, layout, level, k)
         == (r + (if k > 0 then "," else "") + Break(layout, level) + Write(show, items[k], layout, level))
            + ItemsLeft(show, items, layout, level, k + 1)
  {
    var rest := items[k..];
    assert rest[0] == items[k] && rest[1..] == items[k + 1..];
    Regroup(r, if k > 0 then "," else "", Break(layout, level), Write(show, items[k], layout, level),
            ItemsLeft(show, items, layout, level, k + 1));
  }

  lemma Regroup(r: string, sep: string, brk: string, text: string, more: string)
    ensures r + (sep + (brk + text + more)) == (r + sep + brk + text) + more
  {
  }

  /** A member: its line break, key and value. */
  function FieldText(show: real -> string, f: Field, layout: Layout, level: nat): string {
    Break(layout, level) + Quoted(f.key) + Colon(layout) + Write(show, f.value, layout, level)
  }

  lemma FieldTurn(show: real -> string, fields: seq<Field>, layout: Layout, level: nat, k: nat, r: string)
    requires k < |fields|
    ensures r + FieldsLeft(show, fields, layout, level, k)
         == ((r + (if k > 0 then "," else "")) + FieldText(show, fields[k], layout, level))
            + FieldsLeft(show, fields, layout, level, k + 1)
  {
    var rest, f := fields[k..], fields[k];
    assert rest[0] == f && rest[1..] == fields[k + 1..];
    RegroupField(r, if k > 0 then ","
        else "", FieldText(show, f, layout, level), FieldsLeft(show, fields, layout, level, k + 1));
  }

  lemma FieldDone(show: real -> string, fields: seq<Field>, layout: Layout, level: nat, k: nat,
                  before: string, after: string, goal: string)
    requires k < |fields| && before + FieldsLeft(show, fields, layout, level, k) == goal
    requires after == (before + (if k > 0 then "," else "")) + FieldText(show, fields[k], layout, level)
    ensures after + FieldsLeft(show, fields, layout, level, k + 1) == goal
  {
    FieldTurn(show, fields, layout, level, k, before);
  }

  lemma RegroupField(r: string, sep: string, text: string, more: string)
    ensures r + (sep + (text + more)) == ((r + sep) + text) + more
  {
  }

  lemma Parts(out: string, brk: string, key: string, colon: string, text: string)
    ensures out + brk + key + colon + text == out + (brk + key + colon + text)
  {
  }

  /** Appends the rendering of a value. */
  method AppendValue(show: real -> string, out: string, v: Json, layout: Layout, level: nat) returns (r: string)
    ensures r == out + Write(show, v, layout, level)
    decreases v, 1
  {
    match v
    case Null => r := out + "null";
    case Bool(b) => r := out + (if b then "true" else "false");
    case Num(n) => r := out + (if PrintsAsInteger(n) then Integer(n.Floor) else show(n));
    case Str(s) => r := AppendQuoted(out, s);
    case Arr(items) =>
      if level >= MAX_DEPTH {
        r := out + "[...]";
      } else if items == [] {
        r := out + "[]";
      } else {
        r := AppendItems(show, out + "[", items, layout, level + 1);
        r := r + Break(layout, level) + "]";
        Bracket(out, "[", WriteItems(show, items, layout, level + 1), Break(layout, level), "]");
      }
    case Obj(fields) =>
      if level >= MAX_DEPTH {
        r := out + "{...}";
      } else if fields == [] {
        r := out + "{}";
      } else {
        r := AppendFields(show, out + "{", fields, layout, level + 1);
        r := r + Break(layout, level) + "}";
        Bracket(out, "{", WriteFields(show, fields, layout, level + 1), Break(layout, level), "}");
      }
  }

  lemma Bracket(out: string, open: string, text: string, brk: string, close: string)
    ensures ((out + open) + text) + brk + close == out + (open + text + (brk + close))
  {
  }

  method AppendItems(show: real -> string, out: string, items: seq<Json>, layout: Layout, level: nat)
      returns (r: string)
    requires items != []
    ensures r == out + WriteItems(show, items, layout, level)
    decreases items, 0
  {
    r := out;
    var k := 0;
    assert items[0..] == items && "" + WriteItems(show, items, layout, level) == WriteItems(show, items, layout, level);
    while k < |items|
      invariant 0 <= k <= |items|
      invariant r + ItemsLeft(show, items, layout, level, k) == out + WriteItems(show, items, layout, level)
    {
      ItemTurn(show, items, layout, level, k, r);
      r := r + (if k > 0 then "," else "") + Break(layout, level);
      r := AppendValue(show, r, items[k], layout, level);
      k := k + 1;
    }
    assert r + "" == r;
  }

  method AppendFields(show: real -> string, out: string, fields: seq<Field>, layout: Layout, level: nat)
      returns (r: string)
    requires fields != []
    ensures r == out + WriteFields(show, fields, layout, level)
    decreases fields, 0
  {
    r := out;
    var k := 0;
    ghost var goal := out + WriteFields(show, fields, layout, level);
    assert fields[0..] == fields && "" + WriteFields(show, fields, layout, level)
        == WriteFields(show, fields, layout, level);
    while k < |fields|
      invariant 0 <= k <= |fields|
      invariant r + FieldsLeft(show, fields, layout, level, k) == goal
    {
      ghost var before := r;
      r := AppendField(show, r + (if k > 0 then "," else ""), fields[k], layout, level);
      FieldDone(show, fields, layout, level, k, before, r, goal);
      k := k + 1;
    }
    assert r + "" == r;
  }

  method AppendField(show: real -> string, out: string, f: Field, layout: Layout, level: nat) returns (r: string)
    ensures r == out + FieldText(show, f, layout, level)
    decreases f, 2
  {
    r := AppendQuoted(out + Break(layout, level), f.key);
    r := r + Colon(layout);
    r := AppendValue(show, r, f.value, layout, level);
    Parts(out, Break(layout, level), Quoted(f.key), Colon(layout), Write(show, f.value, layout, level));
  }
}
