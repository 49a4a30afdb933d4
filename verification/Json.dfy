/** JSON values, the text that the writer gives for them and a reader for that text: sections 2 to 7 of
    RFC 8259, for numbers without fraction and exponent and strings without \u escapes. */
module Json {
  import opened Wrappers

  datatype Json = Null | Bool(b: bool) | Int(n: int) | Str(s: string) | Arr(items: Items) | Obj(fields: Fields)
  datatype Items = NoItems | Item(head: Json, rest: Items)
  datatype Fields = NoFields | Field(key: string, value: Json, rest: Fields)

  // ----- strings

  /** `is_json_escape_char`: what follows the backslash, or None for a character that is copied. */
  function EscapeChar(c: char, solidus: bool): Option<char>
  {
    match c
    case '\"' => Some('\"')
    case '\\' => Some('\\')
    case '/' => if solidus then Some('/') else None
    case _ =>
      if c as int == 0x08 then Some('b')
      else if c as int == 0x0C then Some('f')
      else if c == '\n' then Some('n')
      else if c == '\r' then Some('r')
      else if c == '\t' then Some('t')
      else None
  }

  function EscapedChar(c: char, solidus: bool): string
  {
    var e := EscapeChar(c, solidus);
    if e.Some? then ['\\', e.value] else [c]
  }

  /** Character by character. */
  function Escaped(s: string, solidus: bool): string
  {
    if s == [] then [] else EscapedChar(s[0], solidus) + Escaped(s[1..], solidus)
  }

  function Quoted(s: string, solidus: bool): string
  {
    "\"" + Escaped(s, solidus) + "\""
  }

  /** What an escape stands for, section 7 of RFC 8259. */
  function Unescape(c: char): Option<char>
  {
    match c
    case '\"' => Some('\"')
    case '\\' => Some('\\')
    case '/' => Some('/')
    case 'b' => Some(0x08 as char)
    case 'f' => Some(0x0C as char)
    case 'n' => Some('\n')
    case 'r' => Some('\r')
    case 't' => Some('\t')
    case _ => None
  }

  /** A string after its opening quotation mark, and what follows it; a strict reader refuses raw control
      characters, as the RFC does. */
  function ParseString(s: string, strict: bool): (r: Option<(string, string)>)
    ensures r.Some? ==> |r.value.1| < |s|
  {
    if s == [] then None
    else if s[0] == '\"' then Some(([], s[1..]))
    else if s[0] == '\\' then
      if |s| < 2 || Unescape(s[1]).None? then None
      else Prefixed(Unescape(s[1]).value, ParseString(s[2..], strict))
    else if strict && s[0] < ' ' then None
    else Prefixed(s[0], ParseString(s[1..], strict))
  }

  function Prefixed(c: char, r: Option<(string, string)>): Option<(string, string)>
  {
    if r.None? then None else Some(([c] + r.value.0, r.value.1))
  }

  /** The control characters that have a short escape, by their codes: backspace, tab, line feed, form feed
      and carriage return. */
  predicate HasShortEscape(c: char)
  {
    c as int in {8, 9, 10, 12, 13}
  }

  /** Not a control character, or one that has a short escape. */
  predicate CleanChar(c: char)
  {
    0x20 <= c as int || HasShortEscape(c)
  }

  predicate CleanString(s: string)
  {
    forall i :: 0 <= i < |s| ==> CleanChar(s[i])
  }

  /** One character of a string. */
  lemma CharRoundTrip(c: char, u: string, solidus: bool, strict: bool)
    ensures ParseString(EscapedChar(c, solidus) + u, strict)
         == if strict && !CleanChar(c) then None else Prefixed(c, ParseString(u, strict))
  {
    var t := EscapedChar(c, solidus) + u;
    if EscapeChar(c, solidus).Some? {
      assert t[2..] == u;
    } else {
      assert t[1..] == u;
    }
  }

  lemma {:induction false} StringRoundTrip(s: string, solidus: bool, strict: bool, rest: string)
    ensures ParseString(Escaped(s, solidus) + "\"" + rest, strict)
         == if strict && !CleanString(s) then None else Some((s, rest))
  {
    var t := Escaped(s, solidus) + "\"" + rest;
    if s == [] {
      assert t == ['\"'] + rest && t[1..] == rest;
    } else {
      var u := Escaped(s[1..], solidus) + "\"" + rest;
      assert t == EscapedChar(s[0], solidus) + u;
      CharRoundTrip(s[0], u, solidus, strict);
      StringRoundTrip(s[1..], solidus, strict, rest);
      assert s == [s[0]] + s[1..];
    }
  }

  /** What must be escaped: the quotation mark, the backslash, the control characters with a short escape,
      and the solidus if that is set. */
  predicate MustEscape(c: char, solidus: bool)
  {
    c == '\"' || c == '\\' || HasShortEscape(c) || (solidus && c == '/')
  }

  lemma EscapedIff(c: char, solidus: bool)
    ensures EscapeChar(c, solidus).Some? <==> MustEscape(c, solidus)
  {
  }

  /** None of these control characters goes out as it is. */
  lemma {:induction false} NoRawControls(s: string, solidus: bool)
    ensures forall i :: 0 <= i < |Escaped(s, solidus)| ==> !HasShortEscape(Escaped(s, solidus)[i])
  {
    if s != [] {
      NoRawControls(s[1..], solidus);
      EscapedIff(s[0], solidus);
      assert forall i :: 0 <= i < |EscapedChar(s[0], solidus)| ==> !HasShortEscape(EscapedChar(s[0], solidus)[i]);
    }
  }

  /** A text is copied as it is exactly when nothing in it must be escaped; else it gets longer. */
  lemma {:induction false} CopiedIff(s: string, solidus: bool)
    ensures |s| <= |Escaped(s, solidus)|
    ensures |s| == |Escaped(s, solidus)| <==> forall i :: 0 <= i < |s| ==> !MustEscape(s[i], solidus)
    ensures Escaped(s, solidus) == s <==> forall i :: 0 <= i < |s| ==> !MustEscape(s[i], solidus)
  {
    if s != [] {
      CopiedIff(s[1..], solidus);
      EscapedIff(s[0], solidus);
      assert s == [s[0]] + s[1..];
    }
  }

  /** Every '/' with a backslash before it. */
  function WithSolidus(t: string): string
  {
    if t == [] then [] else (if t[0] == '/' then ['\\', '/'] else [t[0]]) + WithSolidus(t[1..])
  }

  lemma {:induction false} WithSolidusConcat(a: string, b: string)
    ensures WithSolidus(a + b) == WithSolidus(a) + WithSolidus(b)
  {
    if a == [] {
      assert a + b == b;
    } else {
      assert (a + b)[1..] == a[1..] + b;
      WithSolidusConcat(a[1..], b);
    }
  }

  lemma OneWithSolidus(c: char)
    ensures WithSolidus([c]) == if c == '/' then ['\\', '/'] else [c]
  {
    assert [c][1..] == [];
  }

  lemma WithSolidusChar(c: char)
    ensures EscapedChar(c, true) == WithSolidus(EscapedChar(c, false))
  {
    var t := EscapedChar(c, false);
    if |t| == 2 {
      assert t == ['\\'] + [t[1]];
      WithSolidusConcat(['\\'], [t[1]]);
      OneWithSolidus('\\');
      OneWithSolidus(t[1]);
    } else {
      OneWithSolidus(c);
    }
  }

  /** All that the setting does is to escape every solidus. */
  lemma {:induction false} SolidusIsEscaped(s: string)
    ensures Escaped(s, true) == WithSolidus(Escaped(s, false))
  {
    if s != [] {
      WithSolidusChar(s[0]);
      SolidusIsEscaped(s[1..]);
      WithSolidusConcat(EscapedChar(s[0], false), Escaped(s[1..], false));
    }
  }

  lemma {:induction false} EscapedConcat(a: string, b: string, solidus: bool)
    ensures Escaped(a + b, solidus) == Escaped(a, solidus) + Escaped(b, solidus)
  {
    if a == [] {
      assert a + b == b;
    } else {
      assert (a + b)[1..] == a[1..] + b;
      EscapedConcat(a[1..], b, solidus);
    }
  }

  lemma EscapedNext(s: string, i: nat, solidus: bool)
    requires i < |s|
    ensures Escaped(s[..i + 1], solidus) == Escaped(s[..i], solidus) + EscapedChar(s[i], solidus)
  {
    assert s[..i + 1] == s[..i] + [s[i]];
    EscapedConcat(s[..i], [s[i]], solidus);
    assert Escaped([s[i]], solidus) == EscapedChar(s[i], solidus) + Escaped([], solidus);
  }

  lemma PlainNext(s: string, start: nat, end: nat, solidus: bool)
    requires start <= end < |s| && EscapeChar(s[end], solidus).None?
    requires Escaped(s[..end], solidus) == Escaped(s[..start], solidus) + s[start..end]
    ensures Escaped(s[..end + 1], solidus) == Escaped(s[..start], solidus) + s[start..end + 1]
  {
    EscapedNext(s, end, solidus);
    assert s[start..end + 1] == s[start..end] + [s[end]];
  }

  /** The end of the run of characters from `start` that need no escape. */
  method PlainRun(s: string, start: nat, solidus: bool) returns (end: nat)
    requires start < |s| && EscapeChar(s[start], solidus).None?
    ensures start < end <= |s| && (end < |s| ==> EscapeChar(s[end], solidus).Some?)
    ensures Escaped(s[..end], solidus) == Escaped(s[..start], solidus) + s[start..end]
  {
    end := start;
    while end < |s| && EscapeChar(s[end], solidus).None?
      invariant start <= end <= |s| && (end == start ==> EscapeChar(s[end], solidus).None?)
      invariant Escaped(s[..end], solidus) == Escaped(s[..start], solidus) + s[start..end]
    {
      PlainNext(s, start, end, solidus);
      end := end + 1;
    }
  }

  /** `json_escape_string`: runs of characters that need no escape are copied at once. */
  method EscapeString(s: string, solidus: bool) returns (result: string)
    ensures result == Escaped(s, solidus)
  {
    result := [];
    var i := 0;
    while i < |s|
      invariant 0 <= i <= |s|
      invariant result == Escaped(s[..i], solidus)
    {
      var e := EscapeChar(s[i], solidus);
      if e.Some? {
        EscapedNext(s, i, solidus);
        result := result + ['\\', e.value];
        i := i + 1;
      } else {
        var start := i;
        i := PlainRun(s, start, solidus);
        result := result + s[start..i];
      }
    }
    assert s[..i] == s;
  }

  // ----- numbers

  function Digit(k: nat): char
    requires k < 10
  {
    ('0' as int + k) as char
  }

  predicate IsDigit(c: char) { '0' <= c <= '9' }

  function Digits(n: nat): (d: string)
    ensures d != [] && forall i :: 0 <= i < |d| ==> IsDigit(d[i])
  {
    if n < 10 then [Digit(n)] else Digits(n / 10) + [Digit(n % 10)]
  }

  /** `std::to_string` of an integer. */
  function Decimal(n: int): string
  {
    if n < 0 then "-" + Digits(-n) else Digits(n)
  }

  function DigitsLen(s: string): (n: nat)
    ensures n <= |s| && (forall i :: 0 <= i < n ==> IsDigit(s[i])) && (n < |s| ==> !IsDigit(s[n]))
  {
    if s == [] || !IsDigit(s[0]) then 0 else 1 + DigitsLen(s[1..])
  }

  function DigitValue(c: char): nat
    requires IsDigit(c)
  {
    c as int - '0' as int
  }

  function Value(d: string): nat
    requires forall i :: 0 <= i < |d| ==> IsDigit(d[i])
  {
    if d == [] then 0 else 10 * Value(d[..|d| - 1]) + DigitValue(d[|d| - 1])
  }

  function Signed(neg: bool, n: nat): int { if neg then -(n as int) else n }

  function ParseInt(s: string): (r: Option<(Json, string)>)
    ensures r.Some? ==> |r.value.1| < |s|
  {
    var neg := s != [] && s[0] == '-';
    var d := if neg then s[1..] else s;
    var n := DigitsLen(d);
    if n == 0 || (n > 1 && d[0] == '0') then None
    else Some((Int(Signed(neg, Value(d[..n]))), d[n..]))
  }

  lemma {:induction false} DigitsValue(n: nat)
    ensures Numeral(Digits(n), n) && (0 < n ==> Digits(n)[0] != '0')
  {
    if 10 <= n {
      DigitsValue(n / 10);
      assert Digits(n)[..|Digits(n)| - 1] == Digits(n / 10);
    } else {
      assert Digits(n)[..0] == [];
    }
  }

  /** What may follow a number. */
  predicate Stops(rest: string)
  {
    rest == [] || !IsDigit(rest[0])
  }

  lemma {:induction false} DigitsLenOf(d: string, rest: string)
    requires (forall i :: 0 <= i < |d| ==> IsDigit(d[i])) && Stops(rest)
    ensures DigitsLen(d + rest) == |d|
  {
    if d == [] {
      assert d + rest == rest;
    } else {
      assert (d + rest)[1..] == d[1..] + rest;
      DigitsLenOf(d[1..], rest);
    }
  }

  /** What lets ds be read as the number k. */
  ghost predicate Numeral(ds: string, k: nat)
  {
    && ds != [] && (forall i :: 0 <= i < |ds| ==> IsDigit(ds[i]))
    && Value(ds) == k && !(|ds| > 1 && ds[0] == '0')
  }

  lemma NegativeRoundTrip(ds: string, k: nat, rest: string)
    requires Numeral(ds, k) && Stops(rest)
    ensures ParseInt("-" + ds + rest) == Some((Int(Signed(true, k)), rest))
  {
    var d := ds + rest;
    DigitsLenOf(ds, rest);
    assert "-" + ds + rest == "-" + d;
    assert ("-" + d)[1..] == d && d[..|ds|] == ds;
  }

  lemma NaturalRoundTrip(ds: string, k: nat, rest: string)
    requires Numeral(ds, k) && Stops(rest)
    ensures ParseInt(ds + rest) == Some((Int(Signed(false, k)), rest))
  {
    var d := ds + rest;
    DigitsLenOf(ds, rest);
    assert IsDigit(d[0]) && d[..|ds|] == ds;
  }

  lemma IntRoundTrip(n: int, rest: string)
    requires Stops(rest)
    ensures ParseInt(Decimal(n) + rest) == Some((Int(n), rest))
  {
    if n < 0 {
      var k: nat := -n;
      DigitsAreNumeral(k);
      NegativeRoundTrip(Digits(k), k, rest);
    } else {
      DigitsAreNumeral(n);
      NaturalRoundTrip(Digits(n), n, rest);
    }
  }

  lemma DigitsAreNumeral(k: nat)
    ensures Numeral(Digits(k), k)
  {
    DigitsValue(k);
  }

  // ----- the text of values

  function Text(j: Json, solidus: bool): string
  {
    match j
    case Null => "null"
    case Bool(b) => if b then "true" else "false"
    case Int(n) => Decimal(n)
    case Str(s) => Quoted(s, solidus)
    case Arr(items) => "[" + ItemsText(items, true, solidus) + " ]"
    case Obj(fields) => "{" + FieldsText(fields, true, solidus) + " }"
  }

  function Separator(first: bool): string
  {
    if first then " " else ", "
  }

  function KeyText(key: string, solidus: bool): string
  {
    Quoted(key, solidus) + ": "
  }

  function ItemsText(items: Items, first: bool, solidus: bool): string
  {
    match items
    case NoItems => ""
    case Item(head, rest) => Separator(first) + Text(head, solidus) + ItemsText(rest, false, solidus)
  }

  function FieldsText(fields: Fields, first: bool, solidus: bool): string
  {
    match fields
    case NoFields => ""
    case Field(key, value, rest) =>
      Separator(first) + KeyText(key, solidus) + Text(value, solidus) + FieldsText(rest, false, solidus)
  }

  // ----- the layout

  function ItemTexts(items: Items, solidus: bool): seq<string>
  {
    match items
    case NoItems => []
    case Item(head, rest) => [Text(head, solidus)] + ItemTexts(rest, solidus)
  }

  function FieldTexts(fields: Fields, solidus: bool): seq<string>
  {
    match fields
    case NoFields => []
    case Field(key, value, rest) =>
      ["\"" + Escaped(key, solidus) + "\": " + Text(value, solidus)] + FieldTexts(rest, solidus)
  }

  /** The texts with a comma and a space between them. */
  function Listed(texts: seq<string>): string
  {
    if texts == [] then "" else if |texts| == 1 then texts[0] else texts[0] + ", " + Listed(texts[1..])
  }

  /** Each with a comma and a space before it. */
  function Followed(texts: seq<string>): string
  {
    if texts == [] then "" else ", " + texts[0] + Followed(texts[1..])
  }

  lemma {:induction false} ListedIsFollowed(t: string, texts: seq<string>)
    ensures Listed([t] + texts) == t + Followed(texts)
    decreases |texts|
  {
    assert ([t] + texts)[1..] == texts;
    if texts != [] {
      ListedIsFollowed(texts[0], texts[1..]);
      assert texts == [texts[0]] + texts[1..];
      LayoutAssoc(t, ", ", texts[0], Followed(texts[1..]));
    }
  }

  lemma LayoutAssoc(a: string, b: string, c: string, d: string)
    ensures a + b + (c + d) == a + (b + c + d)
  {
  }

  lemma {:induction false} ItemsFollowed(items: Items, solidus: bool)
    ensures ItemsText(items, false, solidus) == Followed(ItemTexts(items, solidus))
  {
    if items.Item? {
      var t := ItemTexts(items.rest, solidus);
      ItemsFollowed(items.rest, solidus);
      assert ([Text(items.head, solidus)] + t)[1..] == t;
    }
  }

  lemma {:induction false} FieldsFollowed(fields: Fields, solidus: bool)
    ensures FieldsText(fields, false, solidus) == Followed(FieldTexts(fields, solidus))
  {
    if fields.Field? {
      var t := FieldTexts(fields.rest, solidus);
      FieldsFollowed(fields.rest, solidus);
      FieldLayout(fields.key, fields.value, solidus);
      assert FieldTexts(fields, solidus)[1..] == t;
    }
  }

  lemma FieldLayout(key: string, value: Json, solidus: bool)
    ensures ", " + KeyText(key, solidus) + Text(value, solidus)
         == ", " + ("\"" + Escaped(key, solidus) + "\": " + Text(value, solidus))
    ensures " " + KeyText(key, solidus) + Text(value, solidus)
         == " " + ("\"" + Escaped(key, solidus) + "\": " + Text(value, solidus))
  {
    var e, v := Escaped(key, solidus), Text(value, solidus);
    ColonBehind(e);
    Behind(", ", "\"" + e + "\": ", v);
    Behind(" ", "\"" + e + "\": ", v);
  }

  lemma ColonBehind(e: string)
    ensures "\"" + e + "\"" + ": " == "\"" + e + "\": "
  {
    assert "\": " == "\"" + ": ";
  }

  lemma Behind(a: string, k: string, v: string)
    ensures a + k + v == a + (k + v)
  {
  }

  /** A container's text: its elements with commas between them, and a space inside each bracket. */
  lemma ArrayLayout(items: Items, solidus: bool)
    ensures Text(Arr(items), solidus)
         == if items.NoItems? then "[ ]" else "[ " + Listed(ItemTexts(items, solidus)) + " ]"
  {
    if items.Item? {
      var t, u := Text(items.head, solidus), ItemTexts(items.rest, solidus);
      ItemsFollowed(items.rest, solidus);
      ListedIsFollowed(t, u);
      InBrackets("[", t, Followed(u), " ]");
    }
  }

  lemma FirstFieldLayout(fields: Fields, solidus: bool)
    requires fields.Field?
    ensures FieldsText(fields, true, solidus) == " " + Listed(FieldTexts(fields, solidus))
  {
    var t := "\"" + Escaped(fields.key, solidus) + "\": " + Text(fields.value, solidus);
    var u := FieldTexts(fields.rest, solidus);
    FieldsFollowed(fields.rest, solidus);
    FieldLayout(fields.key, fields.value, solidus);
    ListedIsFollowed(t, u);
    Spaced(t, Followed(u));
  }

  lemma Spaced(t: string, u: string)
    ensures " " + t + u == " " + (t + u)
  {
  }

  lemma ObjectLayout(fields: Fields, solidus: bool)
    ensures Text(Obj(fields), solidus)
         == if fields.NoFields? then "{ }" else "{ " + Listed(FieldTexts(fields, solidus)) + " }"
  {
    if fields.Field? {
      FirstFieldLayout(fields, solidus);
      assert "{" + " " == "{ ";
    }
  }

  lemma InBrackets(open: string, t: string, u: string, close: string)
    ensures open + (" " + t + u) + close == open + " " + (t + u) + close
  {
  }

  // ----- the reader

  predicate IsWs(c: char) { c == ' ' || c == '\t' || c == '\n' || c == '\r' }

  function SkipWs(s: string): (t: string)
    ensures |t| <= |s| && (t != [] ==> !IsWs(t[0]))
  {
    if s != [] && IsWs(s[0]) then SkipWs(s[1..]) else s
  }

  predicate StartsWith(s: string, word: string)
  {
    |word| <= |s| && s[..|word|] == word
  }

  function ParseValue(s: string, strict: bool): (r: Option<(Json, string)>)
    ensures r.Some? ==> |r.value.1| < |s|
    decreases |s|, 0
  {
    var t := SkipWs(s);
    if t == [] then None
    else if t[0] == '[' then
      var a := ParseArray(t[1..], strict);
      if a.None? then None else Some((Arr(a.value.0), a.value.1))
    else if t[0] == '{' then
      var o := ParseObject(t[1..], strict);
      if o.None? then None else Some((Obj(o.value.0), o.value.1))
    else if t[0] == '\"' then
      var q := ParseString(t[1..], strict);
      if q.None? then None else Some((Str(q.value.0), q.value.1))
    else if StartsWith(t, "null") then Some((Null, t[4..]))
    else if StartsWith(t, "true") then Some((Bool(true), t[4..]))
    else if StartsWith(t, "false") then Some((Bool(false), t[5..]))
    else ParseInt(t)
  }

  /** After `[`. */
  function ParseArray(s: string, strict: bool): (r: Option<(Items, string)>)
    ensures r.Some? ==> |r.value.1| < |s|
    decreases |s|, 1
  {
    var t := SkipWs(s);
    if t != [] && t[0] == ']' then Some((NoItems, t[1..])) else
      var v := ParseValue(s, strict);
      if v.None? then None else
        var r := ParseItems(v.value.1, strict);
        if r.None? then None else Some((Item(v.value.0, r.value.0), r.value.1))
  }

  /** After an item. */
  function ParseItems(s: string, strict: bool): (r: Option<(Items, string)>)
    ensures r.Some? ==> |r.value.1| < |s|
    decreases |s|, 0
  {
    var t := SkipWs(s);
    if t == [] then None
    else if t[0] == ']' then Some((NoItems, t[1..]))
    else if t[0] != ',' then None else
      var v := ParseValue(t[1..], strict);
      if v.None? then None else
        var r := ParseItems(v.value.1, strict);
        if r.None? then None else Some((Item(v.value.0, r.value.0), r.value.1))
  }

  /** A key and its colon. */
  function ParseKey(s: string, strict: bool): (r: Option<(string, string)>)
    ensures r.Some? ==> |r.value.1| < |s|
  {
    var t := SkipWs(s);
    if t == [] || t[0] != '\"' then None else
      var k := ParseString(t[1..], strict);
      if k.None? then None else
        var u := SkipWs(k.value.1);
        if u == [] || u[0] != ':' then None else Some((k.value.0, u[1..]))
  }

  /** After the opening brace. */
  function ParseObject(s: string, strict: bool): (r: Option<(Fields, string)>)
    ensures r.Some? ==> |r.value.1| < |s|
    decreases |s|, 2
  {
    var t := SkipWs(s);
    if t != [] && t[0] == '}' then Some((NoFields, t[1..])) else ParseField(s, strict)
  }

  /** A field and those that follow it. */
  function ParseField(s: string, strict: bool): (r: Option<(Fields, string)>)
    ensures r.Some? ==> |r.value.1| < |s|
    decreases |s|, 1
  {
    var k := ParseKey(s, strict);
    if k.None? then None else
      var v := ParseValue(k.value.1, strict);
      if v.None? then None else
        var r := ParseFields(v.value.1, strict);
        if r.None? then None else Some((Field(k.value.0, v.value.0, r.value.0), r.value.1))
  }

  /** After a field. */
  function ParseFields(s: string, strict: bool): (r: Option<(Fields, string)>)
    ensures r.Some? ==> |r.value.1| < |s|
    decreases |s|, 0
  {
    var t := SkipWs(s);
    if t == [] then None
    else if t[0] == '}' then Some((NoFields, t[1..]))
    else if t[0] != ',' then None
    else ParseField(t[1..], strict)
  }

  /** A whole text: one value with white space around it. */
  function Parse(s: string, strict: bool): Option<Json>
  {
    var v := ParseValue(s, strict);
    if v.None? || SkipWs(v.value.1) != [] then None else Some(v.value.0)
  }

  // ----- reading back

  predicate Clean(j: Json)
  {
    match j
    case Str(s) => CleanString(s)
    case Arr(items) => CleanItems(items)
    case Obj(fields) => CleanFields(fields)
    case _ => true
  }

  predicate CleanItems(items: Items)
  {
    items.NoItems? || (Clean(items.head) && CleanItems(items.rest))
  }

  predicate CleanFields(fields: Fields)
  {
    fields.NoFields? || (CleanString(fields.key) && Clean(fields.value) && CleanFields(fields.rest))
  }

  lemma SkipSpace(s: string)
    ensures SkipWs(" " + s) == SkipWs(s)
  {
    assert (" " + s)[1..] == s;
  }

  lemma ValueAfterSpace(s: string, strict: bool)
    ensures ParseValue(" " + s, strict) == ParseValue(s, strict)
  {
    SkipSpace(s);
  }

  /** A key after one space, and the value after another. */
  lemma KeyRoundTrip(key: string, solidus: bool, strict: bool, rest: string)
    ensures ParseKey(" " + KeyText(key, solidus) + rest, strict)
         == if strict && !CleanString(key) then None else Some((key, " " + rest))
  {
    var q := KeyText(key, solidus) + rest;
    var tail := ":" + (" " + rest);
    KeyTail(key, solidus, rest);
    StringRoundTrip(key, solidus, strict, tail);
    QuotedKey(Escaped(key, solidus) + "\"" + tail, strict, key, " " + rest);
    assert " " + KeyText(key, solidus) + rest == " " + q;
  }

  /** A key and a colon, after one space and the quotation mark. */
  lemma QuotedKey(s: string, strict: bool, key: string, rest: string)
    requires ParseString(s, strict) in {None, Some((key, ":" + rest))}
    ensures ParseKey(" " + ("\"" + s), strict)
         == if ParseString(s, strict).None? then None else Some((key, rest))
  {
    SkipSpace("\"" + s);
    OpenBracket('\"', s);
    OpenBracket(':', rest);
  }

  lemma KeyTail(key: string, solidus: bool, rest: string)
    ensures KeyText(key, solidus) + rest == "\"" + (Escaped(key, solidus) + "\"" + (":" + (" " + rest)))
  {
    assert ": " == ":" + " ";
  }

  lemma LiteralRoundTrip(j: Json, solidus: bool, strict: bool, rest: string)
    requires j.Null? || j.Bool?
    ensures ParseValue(Text(j, solidus) + rest, strict) == Some((j, rest))
  {
    var w := Text(j, solidus);
    var t := w + rest;
    assert t[..|w|] == w && t[|w|..] == rest;
    assert t[0] == w[0];
    assert SkipWs(t) == t;
    if j == Bool(false) {
      assert t[..4] == "fals";
    }
  }

  lemma NumberRoundTrip(n: int, strict: bool, rest: string)
    requires Stops(rest)
    ensures ParseValue(Decimal(n) + rest, strict) == Some((Int(n), rest))
  {
    var t := Decimal(n) + rest;
    IntRoundTrip(n, rest);
    assert t[0] == Decimal(n)[0] && (t[0] == '-' || IsDigit(t[0]));
    assert SkipWs(t) == t;
    assert !StartsWith(t, "null") && !StartsWith(t, "true") && !StartsWith(t, "false") by {
      OtherFirst(t, "null");
      OtherFirst(t, "true");
      OtherFirst(t, "false");
    }
  }

  lemma OtherFirst(t: string, word: string)
    requires t != [] && word != [] && t[0] != word[0]
    ensures !StartsWith(t, word)
  {
    if |word| <= |t| { assert t[..|word|][0] == t[0]; }
  }

  lemma QuotedRoundTrip(s: string, solidus: bool, strict: bool, rest: string)
    ensures ParseValue(Quoted(s, solidus) + rest, strict)
         == if strict && !CleanString(s) then None else Some((Str(s), rest))
  {
    var t := Quoted(s, solidus) + rest;
    StringRoundTrip(s, solidus, strict, rest);
    assert t[1..] == Escaped(s, solidus) + "\"" + rest;
    assert SkipWs(t) == t;
  }

  lemma OpenBracket(c: char, s: string)
    requires !IsWs(c)
    ensures ([c] + s)[1..] == s && SkipWs([c] + s) == [c] + s
  {
  }

  lemma {:induction false} ValueRoundTrip(j: Json, solidus: bool, strict: bool, rest: string)
    requires Stops(rest)
    ensures ParseValue(Text(j, solidus) + rest, strict)
         == if strict && !Clean(j) then None else Some((j, rest))
    decreases j
  {
    match j
    case Null => LiteralRoundTrip(j, solidus, strict, rest);
    case Bool(b) => LiteralRoundTrip(j, solidus, strict, rest);
    case Int(n) => NumberRoundTrip(n, strict, rest);
    case Str(s) => QuotedRoundTrip(s, solidus, strict, rest);
    case Arr(items) =>
      BracketedArray(items, solidus, strict, rest);
      ArrayRoundTrip(items, solidus, strict, rest);
    case Obj(fields) =>
      BracedObject(fields, solidus, strict, rest);
      ObjectRoundTrip(fields, solidus, strict, rest);
  }

  lemma BracketedArray(items: Items, solidus: bool, strict: bool, rest: string)
    ensures var a := ParseArray(ItemsText(items, true, solidus) + " ]" + rest, strict);
            ParseValue(Text(Arr(items), solidus) + rest, strict)
            == if a.None? then None else Some((Arr(a.value.0), a.value.1))
  {
    var s := ItemsText(items, true, solidus) + " ]" + rest;
    assert Text(Arr(items), solidus) + rest == "[" + s;
    OpenBracket('[', s);
  }

  lemma BracedObject(fields: Fields, solidus: bool, strict: bool, rest: string)
    ensures var o := ParseObject(FieldsText(fields, true, solidus) + " }" + rest, strict);
            ParseValue(Text(Obj(fields), solidus) + rest, strict)
            == if o.None? then None else Some((Obj(o.value.0), o.value.1))
  {
    var s := FieldsText(fields, true, solidus) + " }" + rest;
    assert Text(Obj(fields), solidus) + rest == "{" + s;
    OpenBracket('{', s);
  }

  lemma Closing(c: char, rest: string)
    requires !IsWs(c)
    ensures SkipWs(" " + [c] + rest) == [c] + rest && ([c] + rest)[1..] == rest
  {
    assert " " + [c] + rest == " " + ([c] + rest);
    SkipSpace([c] + rest);
  }

  lemma {:induction false} ArrayRoundTrip(items: Items, solidus: bool, strict: bool, rest: string)
    ensures ParseArray(ItemsText(items, true, solidus) + " ]" + rest, strict)
         == if strict && !CleanItems(items) then None else Some((items, rest))
    decreases items, 1
  {
    var s := ItemsText(items, true, solidus) + " ]" + rest;
    if items.NoItems? {
      EndOfItems(rest, strict);
      assert s == " " + "]" + rest;
    } else {
      var r := ItemsText(items.rest, false, solidus) + " ]" + rest;
      var v := Text(items.head, solidus) + r;
      assert s == " " + v;
      ValueAfterSpace(v, strict);
      SkipSpace(v);
      ValueStarts(items.head, solidus, r);
      ItemsStop(items.rest, solidus, rest);
      ValueRoundTrip(items.head, solidus, strict, r);
      ItemsRoundTrip(items.rest, solidus, strict, rest);
    }
  }

  /** No value starts like the end of a container. */
  lemma ValueStarts(j: Json, solidus: bool, rest: string)
    ensures var t := Text(j, solidus) + rest; t != [] && SkipWs(t) == t && t[0] !in {']', '}', ','}
  {
    if j.Int? {
      assert Decimal(j.n)[0] == '-' || IsDigit(Decimal(j.n)[0]);
      assert (Text(j, solidus) + rest)[0] == Decimal(j.n)[0];
    }
  }

  lemma ItemsStop(items: Items, solidus: bool, rest: string)
    ensures Stops(ItemsText(items, false, solidus) + " ]" + rest)
  {
  }

  lemma FieldsStop(fields: Fields, solidus: bool, rest: string)
    ensures Stops(FieldsText(fields, false, solidus) + " }" + rest)
  {
  }

  /** An item after a comma and a space. */
  lemma CommaItem(v: string, strict: bool)
    ensures var p := ParseValue(v, strict);
            ParseItems(", " + v, strict) ==
              if p.None? then None else
                var r := ParseItems(p.value.1, strict);
                if r.None? then None else Some((Item(p.value.0, r.value.0), r.value.1))
  {
    var s := ", " + v;
    assert s == "," + (" " + v);
    OpenBracket(',', " " + v);
    ValueAfterSpace(v, strict);
  }

  lemma {:induction false} ItemsRoundTrip(items: Items, solidus: bool, strict: bool, rest: string)
    ensures ParseItems(ItemsText(items, false, solidus) + " ]" + rest, strict)
         == if strict && !CleanItems(items) then None else Some((items, rest))
    decreases items, 0
  {
    var s := ItemsText(items, false, solidus) + " ]" + rest;
    if items.NoItems? {
      EndOfItems(rest, strict);
      assert s == " " + "]" + rest;
    } else {
      var r := ItemsText(items.rest, false, solidus) + " ]" + rest;
      var v := Text(items.head, solidus) + r;
      assert s == ", " + v;
      CommaItem(v, strict);
      ItemsStop(items.rest, solidus, rest);
      ValueRoundTrip(items.head, solidus, strict, r);
      ItemsRoundTrip(items.rest, solidus, strict, rest);
    }
  }

  lemma EndOfItems(rest: string, strict: bool)
    ensures ParseItems(" " + "]" + rest, strict) == Some((NoItems, rest))
    ensures ParseArray(" " + "]" + rest, strict) == Some((NoItems, rest))
  {
    Closing(']', rest);
  }

  lemma EndOfFields(rest: string, strict: bool)
    ensures ParseFields(" " + "}" + rest, strict) == Some((NoFields, rest))
    ensures ParseObject(" " + "}" + rest, strict) == Some((NoFields, rest))
  {
    Closing('}', rest);
  }

  /** Fields after a comma and a space, or after the opening brace and a space. */
  lemma CommaField(f: string, strict: bool)
    requires f != [] && f[0] == '\"'
    ensures ParseFields(", " + f, strict) == ParseField(" " + f, strict)
    ensures ParseObject(" " + f, strict) == ParseField(" " + f, strict)
  {
    assert ", " + f == "," + (" " + f);
    OpenBracket(',', " " + f);
    SkipSpace(f);
  }

  lemma {:induction false} ObjectRoundTrip(fields: Fields, solidus: bool, strict: bool, rest: string)
    ensures ParseObject(FieldsText(fields, true, solidus) + " }" + rest, strict)
         == if strict && !CleanFields(fields) then None else Some((fields, rest))
    decreases fields, 2
  {
    var s := FieldsText(fields, true, solidus) + " }" + rest;
    if fields.NoFields? {
      EndOfFields(rest, strict);
      assert s == " " + "}" + rest;
    } else {
      var f := FieldText(fields, solidus) + " }" + rest;
      FieldParts(fields, solidus, rest);
      assert s == " " + f;
      CommaField(f, strict);
      FieldRoundTrip(fields, solidus, strict, rest);
    }
  }

  /** The fields from one on, without the separator before it. */
  function FieldText(fields: Fields, solidus: bool): string
    requires fields.Field?
  {
    KeyText(fields.key, solidus) + Text(fields.value, solidus) + FieldsText(fields.rest, false, solidus)
  }

  lemma FieldParts(fields: Fields, solidus: bool, rest: string)
    requires fields.Field?
    ensures FieldsText(fields, true, solidus) + " }" + rest == " " + (FieldText(fields, solidus) + " }" + rest)
    ensures FieldsText(fields, false, solidus) + " }" + rest == ", " + (FieldText(fields, solidus) + " }" + rest)
    ensures (FieldText(fields, solidus) + " }" + rest)[0] == '\"'
  {
    var k, v := KeyText(fields.key, solidus), Text(fields.value, solidus);
    var r := FieldsText(fields.rest, false, solidus);
    Regroup(" ", k, v, r, " }", rest);
    Regroup(", ", k, v, r, " }", rest);
    assert (k + v + r + " }" + rest)[0] == k[0];
  }

  lemma Regroup(a: string, k: string, v: string, r: string, c: string, rest: string)
    ensures a + k + v + r + c + rest == a + (k + v + r + c + rest)
  {
  }

  /** A field's key and value, and what follows them. */
  lemma FieldStep(key: string, v: string, solidus: bool, strict: bool)
    ensures var p := ParseValue(v, strict);
            ParseField(" " + KeyText(key, solidus) + v, strict) ==
              if (strict && !CleanString(key)) || p.None? then None else
                var r := ParseFields(p.value.1, strict);
                if r.None? then None else Some((Field(key, p.value.0, r.value.0), r.value.1))
  {
    KeyRoundTrip(key, solidus, strict, v);
    ValueAfterSpace(v, strict);
  }

  lemma FieldTextParts(fields: Fields, solidus: bool, rest: string, r: string)
    requires fields.Field? && r == FieldsText(fields.rest, false, solidus) + " }" + rest
    ensures " " + (FieldText(fields, solidus) + " }" + rest)
         == " " + KeyText(fields.key, solidus) + (Text(fields.value, solidus) + r)
  {
    Rejoin(KeyText(fields.key, solidus), Text(fields.value, solidus), FieldsText(fields.rest, false, solidus), rest);
  }

  lemma Rejoin(k: string, v: string, r: string, rest: string)
    ensures " " + (k + v + r + " }" + rest) == " " + k + (v + (r + " }" + rest))
  {
  }

  lemma {:induction false} FieldRoundTrip(fields: Fields, solidus: bool, strict: bool, rest: string)
    requires fields.Field?
    ensures ParseField(" " + (FieldText(fields, solidus) + " }" + rest), strict)
         == if strict && !CleanFields(fields) then None else Some((fields, rest))
    decreases fields, 1
  {
    var r := FieldsText(fields.rest, false, solidus) + " }" + rest;
    FieldTextParts(fields, solidus, rest, r);
    FieldStep(fields.key, Text(fields.value, solidus) + r, solidus, strict);
    FieldsStop(fields.rest, solidus, rest);
    ValueRoundTrip(fields.value, solidus, strict, r);
    FieldsRoundTrip(fields.rest, solidus, strict, rest);
  }

  lemma {:induction false} FieldsRoundTrip(fields: Fields, solidus: bool, strict: bool, rest: string)
    ensures ParseFields(FieldsText(fields, false, solidus) + " }" + rest, strict)
         == if strict && !CleanFields(fields) then None else Some((fields, rest))
    decreases fields, 2
  {
    var s := FieldsText(fields, false, solidus) + " }" + rest;
    if fields.NoFields? {
      EndOfFields(rest, strict);
      assert s == " " + "}" + rest;
    } else {
      var f := FieldText(fields, solidus) + " }" + rest;
      FieldParts(fields, solidus, rest);
      assert s == ", " + f;
      CommaField(f, strict);
      FieldRoundTrip(fields, solidus, strict, rest);
    }
  }

  /** The text of any value reads back as that value. A strict reader does so exactly when no string holds
      a control character without a short escape, since those are written as they are. */
  lemma TextRoundTrip(j: Json, solidus: bool)
    ensures Parse(Text(j, solidus), false) == Some(j)
    ensures Parse(Text(j, solidus), true) == if Clean(j) then Some(j) else None
  {
    var t := Text(j, solidus);
    assert t + [] == t;
    ValueRoundTrip(j, solidus, false, []);
    ValueRoundTrip(j, solidus, true, []);
  }
}
