/** JSON text as src/output.c writes it, and a reader for compact JSON (RFC 8259). */
module Json {
  import opened Numerals

  datatype Json = Str(text: string) | Num(number: nat) | Bool(value: bool)
                | Arr(items: seq<Json>) | Obj(fields: seq<Field>)
  datatype Field = Field(key: string, value: Json)

  // ----- Writing -----

  /** What a C string can hold: bytes other than NUL. */
  predicate IsCText(s: string) {
    forall i :: 0 <= i < |s| ==> 0 < s[i] as int < 0x100
  }

  function Escape(c: char): string {
    if c == '"' then "\\\""
    else if c == '\\' then "\\\\"
    else if c == '\n' then "\\n"
    else if c == '\r' then "\\r"
    else if c == '\t' then "\\t"
    else if c as int < 0x20 || c as int >= 0x7f then "\\u" + Padded(c as int, 16, 4)
    else [c]
  }

  function EscapeAll(s: string): string {
    if s == "" then "" else Escape(s[0]) + EscapeAll(s[1..])
  }

  function Quote(s: string): string {
    "\"" + EscapeAll(s) + "\""
  }

  function Render(j: Json): string
    decreases j
  {
    match j
    case Str(s) => Quote(s)
    case Num(n) => Digits(n, 10)
    case Bool(b) => if b then "true" else "false"
    case Arr(items) => "[" + Join(RenderItems(items), ',') + "]"
    case Obj(fields) => "{" + Join(RenderFields(fields), ',') + "}"
  }

  function RenderItems(items: seq<Json>): (texts: seq<string>)
    ensures |texts| == |items|
    decreases items
  {
    if items == [] then [] else [Render(items[0])] + RenderItems(items[1..])
  }

  function RenderField(f: Field): string
    decreases f
  {
    Quote(f.key) + ":" + Render(f.value)
  }

  function RenderFields(fields: seq<Field>): (texts: seq<string>)
    ensures |texts| == |fields|
    decreases fields
  {
    if fields == [] then [] else [RenderField(fields[0])] + RenderFields(fields[1..])
  }

  // ----- Reading -----

  datatype Read<+T> = NoRead | Read(value: T, rest: string)

  /** One character of a string, escaped or not (section 7 of RFC 8259). */
  function ReadChar(s: string): (r: Read<char>)
    ensures r.Read? ==> |r.rest| < |s|
  {
    if s == "" || s[0] == '"' || s[0] as int < 0x20 then NoRead
    else if s[0] != '\\' then Read(s[0], s[1..])
    else if |s| < 2 then NoRead
    else if s[1] == '"' || s[1] == '\\' || s[1] == '/' then Read(s[1], s[2..])
    else if s[1] == 'n' then Read('\n', s[2..])
    else if s[1] == 'r' then Read('\r', s[2..])
    else if s[1] == 't' then Read('\t', s[2..])
    else if s[1] == 'b' then Read(8 as char, s[2..])
    else if s[1] == 'f' then Read(12 as char, s[2..])
    else if s[1] == 'u' && |s| >= 6 && AllDigits(s[2..6], 16) && Value(s[2..6], 16) < 0xD800 then
      Read(Value(s[2..6], 16) as char, s[6..])
    else NoRead
  }

  /** The rest of a string behind its opening quote. */
  function ReadString(s: string): (r: Read<string>)
    ensures r.Read? ==> |r.rest| < |s|
  {
    if s != "" && s[0] == '"' then Read("", s[1..])
    else
      var c := ReadChar(s);
      if c.NoRead? then NoRead
      else
        var more := ReadString(c.rest);
        if more.NoRead? then NoRead else Read([c.value] + more.value, more.rest)
  }

  function DigitRun(s: string): (n: nat)
    ensures n <= |s| && AllDigits(s[..n], 10)
    ensures n < |s| ==> !IsDigit(s[n], 10)
  {
    if s == "" || !IsDigit(s[0], 10) then 0
    else
      var n := DigitRun(s[1..]);
      assert s[..n + 1] == [s[0]] + s[1..][..n];
      n + 1
  }

  function ReadNumber(s: string): (r: Read<Json>)
    ensures r.Read? ==> |r.rest| < |s|
  {
    var n := DigitRun(s);
    if n == 0 || (n > 1 && s[0] == '0') then NoRead else Read(Num(Value(s[..n], 10)), s[n..])
  }

  function ReadValue(s: string): (r: Read<Json>)
    ensures r.Read? ==> |r.rest| < |s|
    decreases |s|, 1
  {
    if s == "" then NoRead
    else if s[0] == '"' then
      var t := ReadString(s[1..]);
      if t.NoRead? then NoRead else Read(Str(t.value), t.rest)
    else if s[0] == '[' then
      if |s| > 1 && s[1] == ']' then Read(Arr([]), s[2..])
      else
        var items := ReadItems(s[1..]);
        if items.NoRead? then NoRead else Read(Arr(items.value), items.rest)
    else if s[0] == '{' then
      if |s| > 1 && s[1] == '}' then Read(Obj([]), s[2..])
      else
        var fields := ReadFields(s[1..]);
        if fields.NoRead? then NoRead else Read(Obj(fields.value), fields.rest)
    else if "true" <= s then Read(Bool(true), s[4..])
    else if "false" <= s then Read(Bool(false), s[5..])
    else ReadNumber(s)
  }

  /** Items up to and with the closing bracket. */
  function ReadItems(s: string): (r: Read<seq<Json>>)
    ensures r.Read? ==> |r.rest| < |s|
    decreases |s|, 2
  {
    var first := ReadValue(s);
    if first.NoRead? || first.rest == "" then NoRead
    else if first.rest[0] == ']' then Read([first.value], first.rest[1..])
    else if first.rest[0] == ',' then
      var more := ReadItems(first.rest[1..]);
      if more.NoRead? then NoRead else Read([first.value] + more.value, more.rest)
    else NoRead
  }

  function ReadField(s: string): (r: Read<Field>)
    ensures r.Read? ==> |r.rest| < |s|
    decreases |s|, 2
  {
    if s == "" || s[0] != '"' then NoRead
    else
      var key := ReadString(s[1..]);
      if key.NoRead? || key.rest == "" || key.rest[0] != ':' then NoRead
      else
        var value := ReadValue(key.rest[1..]);
        if value.NoRead? then NoRead else Read(Field(key.value, value.value), value.rest)
  }

  /** Fields up to and with the closing brace. */
  function ReadFields(s: string): (r: Read<seq<Field>>)
    ensures r.Read? ==> |r.rest| < |s|
    decreases |s|, 3
  {
    var first := ReadField(s);
    if first.NoRead? || first.rest == "" then NoRead
    else if first.rest[0] == '}' then Read([first.value], first.rest[1..])
    else if first.rest[0] == ',' then
      var more := ReadFields(first.rest[1..]);
      if more.NoRead? then NoRead else Read([first.value] + more.value, more.rest)
    else NoRead
  }

  // ----- Strings read back -----

  lemma ReadUnicode(code: nat, rest: string)
    requires code < 0x100
    ensures ReadChar("\\u" + Padded(code, 16, 4) + rest) == Read(code as char, rest)
  {
    var hex := Padded(code, 16, 4);
    assert Power(16, 4) == 0x1_0000;
    PaddedLength(code, 16, 4);
    ReadPadded(code, 16, 4);
    var s := "\\u" + hex + rest;
    assert s[0] == '\\' && s[1] == 'u';
    assert s[2..6] == hex && s[6..] == rest;
  }

  lemma ReadShortEscape(e: char, rest: string)
    ensures |['\\', e] + rest| >= 2 && (['\\', e] + rest)[2..] == rest
    ensures (['\\', e] + rest)[0] == '\\' && (['\\', e] + rest)[1] == e
  {
  }

  lemma ReadEscape(c: char, rest: string)
    requires 0 < c as int < 0x100
    ensures ReadChar(Escape(c) + rest) == Read(c, rest)
    ensures Escape(c) != "" && Escape(c)[0] != '"'
  {
    if c == '"' || c == '\\' {
      ReadShortEscape(c, rest);
      assert Escape(c) == ['\\', c];
    } else if c == '\n' {
      ReadShortEscape('n', rest);
    } else if c == '\r' {
      ReadShortEscape('r', rest);
    } else if c == '\t' {
      ReadShortEscape('t', rest);
    } else if c as int < 0x20 || c as int >= 0x7f {
      ReadUnicode(c as int, rest);
    } else {
      assert ([c] + rest)[1..] == rest;
    }
  }

  /** Unescaping what `json_write_escaped` wrote recovers every NUL-free byte string. */
  lemma {:induction false} ReadStringBack(s: string, rest: string)
    requires IsCText(s)
    ensures ReadString(EscapeAll(s) + "\"" + rest) == Read(s, rest)
  {
    var written := EscapeAll(s) + "\"" + rest;
    if s == "" {
      assert written == "\"" + rest;
    } else {
      var more := EscapeAll(s[1..]) + "\"" + rest;
      assert written == Escape(s[0]) + more;
      ReadEscape(s[0], more);
      ReadStringBack(s[1..], rest);
      assert s == [s[0]] + s[1..];
    }
  }

  lemma {:induction false} DigitRunOf(s: string, rest: string)
    requires AllDigits(s, 10) && (rest == "" || !IsDigit(rest[0], 10))
    ensures DigitRun(s + rest) == |s|
  {
    if s == "" {
      assert s + rest == rest;
    } else {
      assert (s + rest)[1..] == s[1..] + rest;
      DigitRunOf(s[1..], rest);
    }
  }

  lemma ReadNumberBack(n: nat, rest: string)
    requires rest == "" || !IsDigit(rest[0], 10)
    ensures ReadNumber(Digits(n, 10) + rest) == Read(Num(n), rest)
  {
    var s := Digits(n, 10);
    DigitRunOf(s, rest);
    NoLeadingZero(n, 10);
    ReadDigits(n, 10);
    assert (s + rest)[..|s|] == s && (s + rest)[|s|..] == rest;
  }

  // ----- Values read back -----

  lemma Regroup(a: string, b: string, c: string, d: string)
    ensures (a + b + c) + d == a + (b + c + d)
  {
  }

  lemma RegroupLast(a: string, close: string, rest: string)
    ensures (a + "") + close + rest == a + (close + rest)
  {
  }

  lemma RegroupMore(a: string, b: string, close: string, rest: string)
    ensures (a + ("," + b)) + close + rest == a + ("," + (b + close + rest))
  {
  }

  lemma RegroupField(key: string, value: string, rest: string)
    ensures (("\"" + key + "\"") + ":" + value) + rest == "\"" + (key + "\"" + (":" + (value + rest)))
  {
  }

  predicate IsCJson(j: Json)
    decreases j
  {
    match j
    case Str(s) => IsCText(s)
    case Arr(items) => forall i :: 0 <= i < |items| ==> IsCJson(items[i])
    case Obj(fields) =>
      forall i :: 0 <= i < |fields| ==> IsCText(fields[i].key) && IsCJson(fields[i].value)
    case _ => true
  }

  /** How a value's text begins decides how it is read. */
  lemma RenderBegins(j: Json)
    ensures Render(j) != ""
    ensures match j
      case Str(_) => Render(j)[0] == '"'
      case Num(_) => IsDigit(Render(j)[0], 10)
      case Bool(b) => Render(j)[0] == if b then 't' else 'f'
      case Arr(_) => Render(j)[0] == '['
      case Obj(_) => Render(j)[0] == '{'
  {
  }

  lemma ReadStrBack(t: string, rest: string)
    requires IsCText(t)
    ensures ReadValue(Quote(t) + rest) == Read(Str(t), rest)
  {
    var inner := EscapeAll(t) + "\"" + rest;
    assert Quote(t) + rest == "\"" + inner;
    assert ("\"" + inner)[1..] == inner;
    ReadStringBack(t, rest);
  }

  lemma ReadNumBack(n: nat, rest: string)
    requires rest == "" || !IsDigit(rest[0], 10)
    ensures ReadValue(Digits(n, 10) + rest) == Read(Num(n), rest)
  {
    var s := Digits(n, 10) + rest;
    assert IsDigit(s[0], 10);
    assert s[0] != "true"[0] && s[0] != "false"[0];
    ReadNumberBack(n, rest);
  }

  lemma ReadBoolBack(b: bool, rest: string)
    ensures ReadValue((if b then "true" else "false") + rest) == Read(Bool(b), rest)
  {
    if b {
      var s := "true" + rest;
      assert s[0] == 't' && s[..4] == "true" && s[4..] == rest;
    } else {
      var s := "false" + rest;
      assert s[0] == 'f' && s[..5] == "false" && s[5..] == rest;
      assert s[0] != "true"[0];
    }
  }

  lemma ReadArrOf(body: string, items: seq<Json>, rest: string)
    requires body != "" && body[0] != ']' && ReadItems(body) == Read(items, rest)
    ensures ReadValue("[" + body) == Read(Arr(items), rest)
  {
    assert ("[" + body)[1..] == body;
  }

  lemma ReadObjOf(body: string, fields: seq<Field>, rest: string)
    requires body != "" && body[0] != '}' && ReadFields(body) == Read(fields, rest)
    ensures ReadValue("{" + body) == Read(Obj(fields), rest)
  {
    assert ("{" + body)[1..] == body;
  }

  lemma ReadEmpty(rest: string)
    ensures ReadValue("[]" + rest) == Read(Arr([]), rest)
    ensures ReadValue("{}" + rest) == Read(Obj([]), rest)
  {
    assert ("[]" + rest)[0] == '[' && ("[]" + rest)[1] == ']' && ("[]" + rest)[2..] == rest;
    assert ("{}" + rest)[0] == '{' && ("{}" + rest)[1] == '}' && ("{}" + rest)[2..] == rest;
  }

  lemma JoinFirst(texts: seq<string>)
    requires texts != []
    ensures Join(texts, ',') == texts[0] + if |texts| == 1 then "" else "," + Join(texts[1..], ',')
  {
  }

  /** Every value, written compactly, is read back whole: the text is well-formed JSON. */
  lemma {:induction false} ReadValueBack(j: Json, rest: string)
    requires IsCJson(j) && (rest == "" || !IsDigit(rest[0], 10))
    ensures ReadValue(Render(j) + rest) == Read(j, rest)
    decreases j, 1
  {
    match j
    case Str(t) => ReadStrBack(t, rest);
    case Num(n) => ReadNumBack(n, rest);
    case Bool(b) => ReadBoolBack(b, rest);
    case Arr(items) =>
      if items == [] {
        ReadEmpty(rest);
        assert "[" + "" + "]" == "[]";
      } else {
        var body := Join(RenderItems(items), ',') + "]" + rest;
        ReadItemsBack(items, rest);
        ReadArrOf(body, items, rest);
        Regroup("[", Join(RenderItems(items), ','), "]", rest);
      }
    case Obj(fields) =>
      if fields == [] {
        ReadEmpty(rest);
        assert "{" + "" + "}" == "{}";
      } else {
        var body := Join(RenderFields(fields), ',') + "}" + rest;
        ReadFieldsBack(fields, rest);
        ReadObjOf(body, fields, rest);
        Regroup("{", Join(RenderFields(fields), ','), "}", rest);
      }
  }

  lemma ReadItemsLast(s: string, v: Json, rest: string)
    requires ReadValue(s) == Read(v, "]" + rest)
    ensures ReadItems(s) == Read([v], rest)
  {
    assert ("]" + rest)[1..] == rest;
  }

  lemma ReadItemsMore(s: string, v: Json, more: string, vs: seq<Json>, rest: string)
    requires ReadValue(s) == Read(v, "," + more) && ReadItems(more) == Read(vs, rest)
    ensures ReadItems(s) == Read([v] + vs, rest)
  {
    assert ("," + more)[1..] == more;
  }

  lemma {:induction false} ReadItemsBack(items: seq<Json>, rest: string)
    requires items != [] && forall i :: 0 <= i < |items| ==> IsCJson(items[i])
    ensures var body := Join(RenderItems(items), ',') + "]" + rest;
      body[0] != ']' && ReadItems(body) == Read(items, rest)
    decreases items, 0
  {
    hide ReadValue, ReadItems, Render, Join;
    var texts := RenderItems(items);
    var body := Join(texts, ',') + "]" + rest;
    JoinFirst(texts);
    RenderBegins(items[0]);
    assert texts[1..] == RenderItems(items[1..]);
    if |items| == 1 {
      RegroupLast(Render(items[0]), "]", rest);
      ReadValueBack(items[0], "]" + rest);
      ReadItemsLast(body, items[0], rest);
      assert items == [items[0]];
    } else {
      var more := Join(texts[1..], ',') + "]" + rest;
      RegroupMore(Render(items[0]), Join(texts[1..], ','), "]", rest);
      ReadValueBack(items[0], "," + more);
      ReadItemsBack(items[1..], rest);
      ReadItemsMore(body, items[0], more, items[1..], rest);
      assert items == [items[0]] + items[1..];
    }
  }

  lemma ReadFieldOf(name: string, key: string, text: string, value: Json, rest: string)
    requires ReadString(name) == Read(key, ":" + text) && ReadValue(text) == Read(value, rest)
    ensures ReadField("\"" + name) == Read(Field(key, value), rest)
  {
    assert ("\"" + name)[1..] == name && (":" + text)[1..] == text;
  }

  lemma {:induction false} ReadFieldBack(f: Field, rest: string)
    requires IsCText(f.key) && IsCJson(f.value) && (rest == "" || !IsDigit(rest[0], 10))
    ensures ReadField(RenderField(f) + rest) == Read(f, rest)
    decreases f, 2
  {
    var text := Render(f.value) + rest;
    var name := EscapeAll(f.key) + "\"" + (":" + text);
    ReadStringBack(f.key, ":" + text);
    ReadValueBack(f.value, rest);
    ReadFieldOf(name, f.key, text, f.value, rest);
    RegroupField(EscapeAll(f.key), Render(f.value), rest);
  }

  lemma ReadFieldsLast(s: string, v: Field, rest: string)
    requires ReadField(s) == Read(v, "}" + rest)
    ensures ReadFields(s) == Read([v], rest)
  {
    assert ("}" + rest)[1..] == rest;
  }

  lemma ReadFieldsMore(s: string, v: Field, more: string, vs: seq<Field>, rest: string)
    requires ReadField(s) == Read(v, "," + more) && ReadFields(more) == Read(vs, rest)
    ensures ReadFields(s) == Read([v] + vs, rest)
  {
    assert ("," + more)[1..] == more;
  }

  lemma FirstField(fields: seq<Field>)
    requires fields != []
    ensures var texts := RenderFields(fields);
      && texts[0] == RenderField(fields[0]) && texts[1..] == RenderFields(fields[1..])
      && texts[0] != "" && texts[0][0] == '"'
  {
  }

  lemma {:induction false} ReadFieldsBack(fields: seq<Field>, rest: string)
    requires fields != []
    requires forall i :: 0 <= i < |fields| ==> IsCText(fields[i].key) && IsCJson(fields[i].value)
    ensures var body := Join(RenderFields(fields), ',') + "}" + rest;
      body[0] != '}' && ReadFields(body) == Read(fields, rest)
    decreases fields, 0
  {
    hide ReadField, ReadFields, RenderField, RenderFields, Join;
    var texts := RenderFields(fields);
    var body := Join(texts, ',') + "}" + rest;
    JoinFirst(texts);
    FirstField(fields);
    if |fields| == 1 {
      RegroupLast(RenderField(fields[0]), "}", rest);
      ReadFieldBack(fields[0], "}" + rest);
      ReadFieldsLast(body, fields[0], rest);
      assert fields == [fields[0]];
    } else {
      var more := Join(texts[1..], ',') + "}" + rest;
      RegroupMore(RenderField(fields[0]), Join(texts[1..], ','), "}", rest);
      ReadFieldBack(fields[0], "," + more);
      ReadFieldsBack(fields[1..], rest);
      ReadFieldsMore(body, fields[0], more, fields[1..], rest);
      assert fields == [fields[0]] + fields[1..];
    }
  }

  // ----- One line of seven-bit text -----

  predicate IsPrintable(s: string) {
    forall i :: 0 <= i < |s| ==> 0x20 <= s[i] as int <= 0x7e
  }

  lemma {:induction false} EscapeIsPrintable(s: string)
    requires IsCText(s)
    ensures IsPrintable(EscapeAll(s))
  {
    if s != "" {
      EscapeIsPrintable(s[1..]);
      assert IsPrintable(Escape(s[0]));
    }
  }

  lemma {:induction false} JoinIsPrintable(texts: seq<string>)
    requires forall i :: 0 <= i < |texts| ==> IsPrintable(texts[i])
    ensures IsPrintable(Join(texts, ','))
  {
    if |texts| > 1 {
      JoinIsPrintable(texts[1..]);
    }
  }

  /** Every byte written is printable seven-bit text: no newline, no control byte, no high byte. */
  lemma {:induction false} RenderIsPrintable(j: Json)
    requires IsCJson(j)
    ensures IsPrintable(Render(j))
    decreases j, 1
  {
    match j
    case Str(s) => EscapeIsPrintable(s);
    case Arr(items) =>
      ItemsArePrintable(items);
      JoinIsPrintable(RenderItems(items));
    case Obj(fields) =>
      FieldsArePrintable(fields);
      JoinIsPrintable(RenderFields(fields));
    case _ =>
  }

  lemma {:induction false} ItemsArePrintable(items: seq<Json>)
    requires forall i :: 0 <= i < |items| ==> IsCJson(items[i])
    ensures forall i :: 0 <= i < |items| ==> IsPrintable(RenderItems(items)[i])
    decreases items, 0
  {
    if items != [] {
      RenderIsPrintable(items[0]);
      ItemsArePrintable(items[1..]);
    }
  }

  lemma {:induction false} FieldsArePrintable(fields: seq<Field>)
    requires forall i :: 0 <= i < |fields| ==> IsCText(fields[i].key) && IsCJson(fields[i].value)
    ensures forall i :: 0 <= i < |fields| ==> IsPrintable(RenderFields(fields)[i])
    decreases fields, 0
  {
    if fields != [] {
      EscapeIsPrintable(fields[0].key);
      RenderIsPrintable(fields[0].value);
      FieldsArePrintable(fields[1..]);
    }
  }
}
