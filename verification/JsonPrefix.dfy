/** What was read of a text is read again when more text follows, so no proper prefix of a container is a
    text of its own. */
module JsonPrefix {
  import opened Wrappers
  import opened Json

  lemma {:induction false} SkipExtends(s: string, t: string)
    ensures SkipWs(s) != [] ==> SkipWs(s + t) == SkipWs(s) + t
    ensures SkipWs(s) == [] ==> SkipWs(s + t) == SkipWs(t)
  {
    if s == [] {
      assert s + t == t;
    } else if IsWs(s[0]) {
      assert (s + t)[1..] == s[1..] + t;
      SkipExtends(s[1..], t);
    }
  }

  lemma {:induction false} StringExtends(s: string, t: string, strict: bool)
    requires ParseString(s, strict).Some?
    ensures var r := ParseString(s, strict).value;
            ParseString(s + t, strict) == Some((r.0, r.1 + t))
  {
    if s[0] == '\"' {
      assert (s + t)[1..] == s[1..] + t;
    } else if s[0] == '\\' {
      assert (s + t)[2..] == s[2..] + t;
      StringExtends(s[2..], t, strict);
    } else {
      assert (s + t)[1..] == s[1..] + t;
      StringExtends(s[1..], t, strict);
    }
  }

  lemma {:induction false} DigitsLenExtends(d: string, t: string)
    requires DigitsLen(d) < |d|
    ensures DigitsLen(d + t) == DigitsLen(d)
  {
    if IsDigit(d[0]) {
      assert (d + t)[1..] == d[1..] + t;
      DigitsLenExtends(d[1..], t);
    }
  }

  lemma NumeralExtends(d: string, t: string)
    requires DigitsLen(d) < |d|
    ensures var n := DigitsLen(d);
            DigitsLen(d + t) == n && (d + t)[..n] == d[..n] && (d + t)[n..] == d[n..] + t
  {
    DigitsLenExtends(d, t);
  }

  lemma IntExtends(s: string, t: string)
    requires ParseInt(s).Some? && ParseInt(s).value.1 != []
    ensures var r := ParseInt(s).value;
            ParseInt(s + t) == Some((r.0, r.1 + t))
  {
    if s[0] == '-' {
      assert (s + t)[1..] == s[1..] + t;
      NumeralExtends(s[1..], t);
    } else {
      NumeralExtends(s, t);
    }
  }

  /** A number ends where the text does. */
  predicate Ended(v: Json, rest: string)
  {
    !v.Int? || rest != []
  }

  lemma ScalarExtends(u: string, t: string, strict: bool)
    requires u != [] && !IsWs(u[0]) && u[0] != '[' && u[0] != '{'
    requires ParseValue(u, strict).Some? && Ended(ParseValue(u, strict).value.0, ParseValue(u, strict).value.1)
    ensures var r := ParseValue(u, strict).value;
            ParseValue(u + t, strict) == Some((r.0, r.1 + t))
  {
    assert SkipWs(u) == u && SkipWs(u + t) == u + t && (u + t)[0] == u[0];
    if u[0] == '\"' {
      assert (u + t)[1..] == u[1..] + t;
      StringExtends(u[1..], t, strict);
    } else if StartsWith(u, "null") || StartsWith(u, "true") {
      assert (u + t)[..4] == u[..4] && (u + t)[4..] == u[4..] + t;
    } else if StartsWith(u, "false") {
      assert (u + t)[..5] == u[..5] && (u + t)[5..] == u[5..] + t;
      assert (u + t)[..4] == u[..4] == "fals";
    } else {
      assert u[0] == '-' || IsDigit(u[0]);
      OtherFirst(u + t, "null");
      OtherFirst(u + t, "true");
      OtherFirst(u + t, "false");
      IntExtends(u, t);
    }
  }

  lemma SkippedValue(s: string, strict: bool)
    ensures ParseValue(SkipWs(s), strict) == ParseValue(s, strict)
  {
    assert SkipWs(SkipWs(s)) == SkipWs(s);
  }

  lemma {:induction false} ValueExtends(s: string, t: string, strict: bool)
    requires ParseValue(s, strict).Some? && Ended(ParseValue(s, strict).value.0, ParseValue(s, strict).value.1)
    ensures var r := ParseValue(s, strict).value;
            ParseValue(s + t, strict) == Some((r.0, r.1 + t))
    decreases |s|, 0
  {
    var u := SkipWs(s);
    SkipExtends(s, t);
    if u[0] == '[' {
      assert (u + t)[1..] == u[1..] + t;
      ArrayExtends(u[1..], t, strict);
    } else if u[0] == '{' {
      assert (u + t)[1..] == u[1..] + t;
      ObjectExtends(u[1..], t, strict);
    } else {
      SkippedValue(s, strict);
      SkippedValue(s + t, strict);
      ScalarExtends(u, t, strict);
    }
  }

  lemma {:induction false} ArrayExtends(s: string, t: string, strict: bool)
    requires ParseArray(s, strict).Some?
    ensures var r := ParseArray(s, strict).value;
            ParseArray(s + t, strict) == Some((r.0, r.1 + t))
    decreases |s|, 1
  {
    var u := SkipWs(s);
    SkipExtends(s, t);
    if u != [] && u[0] == ']' {
      assert (u + t)[1..] == u[1..] + t;
    } else {
      ValueExtends(s, t, strict);
      ItemsExtend(ParseValue(s, strict).value.1, t, strict);
    }
  }

  lemma {:induction false} ItemsExtend(s: string, t: string, strict: bool)
    requires ParseItems(s, strict).Some?
    ensures var r := ParseItems(s, strict).value;
            ParseItems(s + t, strict) == Some((r.0, r.1 + t))
    decreases |s|, 0
  {
    var u := SkipWs(s);
    SkipExtends(s, t);
    assert (u + t)[1..] == u[1..] + t;
    if u[0] != ']' {
      ValueExtends(u[1..], t, strict);
      ItemsExtend(ParseValue(u[1..], strict).value.1, t, strict);
    }
  }

  lemma KeyExtends(s: string, t: string, strict: bool)
    requires ParseKey(s, strict).Some?
    ensures var r := ParseKey(s, strict).value;
            ParseKey(s + t, strict) == Some((r.0, r.1 + t))
  {
    var u := SkipWs(s);
    SkipExtends(s, t);
    assert (u + t)[1..] == u[1..] + t;
    StringExtends(u[1..], t, strict);
    var k := ParseString(u[1..], strict).value;
    var w := SkipWs(k.1);
    SkipExtends(k.1, t);
    assert (w + t)[1..] == w[1..] + t;
  }

  lemma {:induction false} ObjectExtends(s: string, t: string, strict: bool)
    requires ParseObject(s, strict).Some?
    ensures var r := ParseObject(s, strict).value;
            ParseObject(s + t, strict) == Some((r.0, r.1 + t))
    decreases |s|, 2
  {
    var u := SkipWs(s);
    SkipExtends(s, t);
    if u != [] && u[0] == '}' {
      assert (u + t)[1..] == u[1..] + t;
    } else {
      FieldExtends(s, t, strict);
      assert u != [];
    }
  }

  lemma {:induction false} FieldExtends(s: string, t: string, strict: bool)
    requires ParseField(s, strict).Some?
    ensures var r := ParseField(s, strict).value;
            ParseField(s + t, strict) == Some((r.0, r.1 + t))
    decreases |s|, 1
  {
    KeyExtends(s, t, strict);
    var k := ParseKey(s, strict).value;
    ValueExtends(k.1, t, strict);
    FieldsExtend(ParseValue(k.1, strict).value.1, t, strict);
  }

  lemma {:induction false} FieldsExtend(s: string, t: string, strict: bool)
    requires ParseFields(s, strict).Some?
    ensures var r := ParseFields(s, strict).value;
            ParseFields(s + t, strict) == Some((r.0, r.1 + t))
    decreases |s|, 0
  {
    var u := SkipWs(s);
    SkipExtends(s, t);
    assert (u + t)[1..] == u[1..] + t;
    if u[0] != '}' {
      FieldExtends(u[1..], t, strict);
    }
  }

  /** A part of a container's text that lacks its end is not read as a whole text. */
  lemma NoProperPrefix(j: Json, solidus: bool, part: string, missing: string)
    requires j.Arr? || j.Obj?
    requires Text(j, solidus) == part + missing && SkipWs(missing) != []
    ensures Parse(part, false) == None
  {
    var v := ParseValue(part, false);
    if v.Some? && SkipWs(v.value.1) == [] {
      ContainerStays(j, solidus, part, missing);
      ValueExtends(part, missing, false);
      assert Text(j, solidus) + [] == Text(j, solidus);
      ValueRoundTrip(j, solidus, false, []);
    }
  }

  /** A part that is read at all is read as a container. */
  lemma ContainerStays(j: Json, solidus: bool, part: string, missing: string)
    requires j.Arr? || j.Obj?
    requires Text(j, solidus) == part + missing && ParseValue(part, false).Some?
    ensures !ParseValue(part, false).value.0.Int?
  {
    assert part != [];
    assert part[0] == Text(j, solidus)[0];
  }
}
