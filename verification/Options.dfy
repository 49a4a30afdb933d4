/** The command-line parser of `options.cpp` and the guidelines of section 12.2 of POSIX.1 (XBD) it is for. */
module Options {
  import opened Wrappers

  const NUL: char := 0 as char

  datatype Kind = NotDefined | Single | Required

  /** An option of the command line, and one that is in error. */
  datatype Opt = Opt(letter: char, argument: Option<string>)
  datatype ErrorKind = Unexpected | Missing
  datatype OptError = OptError(letter: char, kind: ErrorKind)
  type Item = Result<Opt, OptError>

  datatype Parsed = Parsed(items: seq<Item>, operands: seq<string>)

  /** `is_valid_opt`, in the C locale. */
  predicate IsValid(c: char)
  {
    c == '?' || '0' <= c <= '9' || 'a' <= c <= 'z' || 'A' <= c <= 'Z'
  }

  // ----- the option string

  type OptMap = m: seq<Kind> | |m| == 128 witness seq(128, _ => NotDefined)

  function KindOf(m: OptMap, c: char): Kind
  {
    if IsValid(c) then m[c as int] else NotDefined
  }

  function NoOptions(): OptMap { seq(128, _ => NotDefined) }

  /** A letter alone is an option string exactly if it is a digit, a letter or a question mark, by its code. */
  lemma LettersAreValid(c: char)
    requires c != NUL
    ensures MapFrom([c], NoOptions()).Some? <==>
      48 <= c as int <= 57 || c as int == 63 || 65 <= c as int <= 90 || 97 <= c as int <= 122
  {
    assert [c][1..] == [];
  }

  /** The part of the string that counts. */
  function UpToNul(s: string): string
  {
    if s == [] || s[0] == NUL then [] else [s[0]] + UpToNul(s[1..])
  }

  /** What the rest of the option string adds to m; None for a string that is refused. */
  function MapFrom(s: string, m: OptMap): Option<OptMap>
  {
    if s == [] || s[0] == NUL then Some(m)
    else if !IsValid(s[0]) then None
    else if |s| > 1 && s[1] == ':' then MapFrom(s[2..], m[s[0] as int := Required])
    else MapFrom(s[1..], m[s[0] as int := Single])
  }

  /** `build_option_map`. */
  method BuildOptionMap(options: string) returns (r: Option<OptMap>)
    ensures r == MapFrom(options, NoOptions())
  {
    var m: OptMap := NoOptions();
    var pos := 0;
    while pos < |options| && options[pos] != NUL
      invariant 0 <= pos <= |options|
      invariant MapFrom(options, NoOptions()) == MapFrom(options[pos..], m)
    {
      var c := options[pos];
      if !IsValid(c) { return None; }
      var next := if pos + 1 < |options| then options[pos + 1] else NUL;
      if next != ':' {
        m := m[c as int := Single];
      } else {
        m := m[c as int := Required];
        pos := pos + 1;
      }
      pos := pos + 1;
    }
    r := Some(m);
  }

  /** A letter, or a colon after one. */
  predicate OkAt(s: string, i: nat)
    requires i < |s|
  {
    IsValid(s[i]) || (s[i] == ':' && 0 < i && s[i - 1] != ':')
  }

  /** Letters, each perhaps with one colon after it. */
  predicate WellFormed(s: string)
  {
    forall i: nat :: i < |s| ==> OkAt(s, i)
  }

  lemma {:induction false} UpToNulHasNone(s: string)
    ensures forall i :: 0 <= i < |UpToNul(s)| ==> UpToNul(s)[i] != NUL
    ensures |UpToNul(s)| <= |s| && UpToNul(s) == s[..|UpToNul(s)|]
    ensures |UpToNul(s)| < |s| ==> s[|UpToNul(s)|] == NUL
  {
    if s != [] && s[0] != NUL {
      UpToNulHasNone(s[1..]);
      var u := UpToNul(s[1..]);
      assert s[..|u| + 1] == [s[0]] + s[1..][..|u|];
    }
  }

  /** Only what comes before a NUL is looked at. */
  lemma {:induction false} MapUpToNul(s: string, m: OptMap)
    ensures MapFrom(s, m) == MapFrom(UpToNul(s), m)
    decreases |s|
  {
    if s != [] && s[0] != NUL && IsValid(s[0]) {
      var u := UpToNul(s);
      assert u[1..] == UpToNul(s[1..]);
      if |s| > 1 && s[1] == ':' {
        assert s[1..][1..] == s[2..];
        assert u[2..] == UpToNul(s[2..]);
        MapUpToNul(s[2..], m[s[0] as int := Required]);
      } else {
        MapUpToNul(s[1..], m[s[0] as int := Single]);
      }
    }
  }

  /** The tail of a well-formed string from a letter on. */
  lemma WellFormedTail(s: string, k: nat)
    requires 0 < k <= |s| && (k == |s| || s[k] != ':')
    requires forall i: nat :: i < k ==> OkAt(s, i)
    ensures WellFormed(s) <==> WellFormed(s[k..])
  {
    var t := s[k..];
    forall i: nat | i < |t| ensures OkAt(t, i) <==> OkAt(s, i + k) {
      assert t[i] == s[i + k];
      if 0 < i { assert t[i - 1] == s[i + k - 1]; }
    }
    if WellFormed(t) {
      forall i: nat | i < |s| ensures OkAt(s, i) {
        if k <= i { assert OkAt(t, i - k) <==> OkAt(s, i - k + k); }
      }
    }
  }

  /** An option string is accepted exactly when it is well formed. */
  lemma {:induction false} AcceptedIffWellFormed(s: string, m: OptMap)
    requires forall i :: 0 <= i < |s| ==> s[i] != NUL
    ensures MapFrom(s, m).Some? <==> WellFormed(s)
    decreases |s|
  {
    if s != [] {
      assert OkAt(s, 0) <==> IsValid(s[0]);
      if !IsValid(s[0]) {
      } else if |s| > 1 && s[1] == ':' {
        AcceptedIffWellFormed(s[2..], m[s[0] as int := Required]);
        assert OkAt(s, 1);
        if |s| > 2 && s[2] == ':' {
          assert !OkAt(s, 2) && !OkAt(s[2..], 0);
        } else {
          WellFormedTail(s, 2);
        }
      } else {
        AcceptedIffWellFormed(s[1..], m[s[0] as int := Single]);
        WellFormedTail(s, 1);
      }
    }
  }

  /** A letter takes an argument exactly when its last mention has a colon. */
  lemma {:induction false} LastMentionCounts(s: string, m: OptMap, c: char, i: nat)
    requires WellFormed(s) && MapFrom(s, m).Some? && (forall j :: 0 <= j < |s| ==> s[j] != NUL)
    requires i < |s| && s[i] == c && c != ':' && forall j :: i < j < |s| ==> s[j] != c
    ensures KindOf(MapFrom(s, m).value, c) == if i + 1 < |s| && s[i + 1] == ':' then Required else Single
    decreases |s|
  {
    assert OkAt(s, 0) && OkAt(s, i);
    var k := if |s| > 1 && s[1] == ':' then 2 else 1;
    var n := m[s[0] as int := if k == 2 then Required else Single];
    assert MapFrom(s, m) == MapFrom(s[k..], n);
    if i == 0 {
      assert forall j :: 0 <= j < |s[k..]| ==> s[k..][j] != c;
      Unmentioned(s[k..], n, c);
    } else {
      assert forall j :: 0 <= j < |s[k..]| ==> s[k..][j] == s[j + k];
      if |s| > k { assert OkAt(s, k); }
      WellFormedTail(s, k);
      LastMentionCounts(s[k..], n, c, i - k);
    }
  }

  lemma {:induction false} Unmentioned(s: string, m: OptMap, c: char)
    requires MapFrom(s, m).Some? && forall j :: 0 <= j < |s| ==> s[j] != c
    ensures KindOf(MapFrom(s, m).value, c) == KindOf(m, c)
    decreases |s|
  {
    if s != [] && s[0] != NUL {
      if |s| > 1 && s[1] == ':' {
        Unmentioned(s[2..], m[s[0] as int := Required], c);
      } else {
        Unmentioned(s[1..], m[s[0] as int := Single], c);
      }
    }
  }

  // ----- parsing

  /** The letters of one argument after its dash: what they give, and the arguments that are left. */
  function Cluster(s: string, rest: seq<string>, m: OptMap): (r: (seq<Item>, seq<string>))
    ensures |r.1| <= |rest|
  {
    if s == [] || s[0] == NUL then ([], rest)
    else if KindOf(m, s[0]) == Required then
      if |s| > 1 then ([Success(Opt(s[0], Some(s[1..])))], rest)
      else if rest == [] then ([Failure(OptError(s[0], Missing))], rest)
      else ([Success(Opt(s[0], Some(rest[0])))], rest[1..])
    else
      var r := Cluster(s[1..], rest, m);
      ([Letter(s[0], m)] + r.0, r.1)
  }

  function Letter(c: char, m: OptMap): Item
  {
    if KindOf(m, c) == Single then Success(Opt(c, None)) else Failure(OptError(c, Unexpected))
  }

  /** `parse_options`. */
  function Parse(args: seq<string>, m: OptMap): Parsed
    decreases |args|
  {
    if args == [] then Parsed([], [])
    else if args[0] == [] || args[0][0] != '-' || args[0] == "-" then Parsed([], args)
    else if args[0] == "--" then Parsed([], args[1..])
    else
      var c := Cluster(args[0][1..], args[1..], m);
      var p := Parse(c.1, m);
      Parsed(c.0 + p.items, p.operands)
  }

  class CommandLine {
    var items: seq<Item>
    var operands: seq<string>

    constructor ()
      ensures items == [] && operands == []
    {
      items, operands := [], [];
    }

    /** The letters of `args[pos]`, whose arguments may be the next of args. */
    method ParseCluster(args: seq<string>, pos: nat, m: OptMap) returns (last: nat)
      requires pos < |args| && args[pos] != []
      modifies `items
      ensures pos <= last < |args|
      ensures var c := Cluster(args[pos][1..], args[pos + 1..], m);
              items == old(items) + c.0 && args[last + 1..] == c.1
    {
      var arg := args[pos];
      var charPos := 1;
      var more := true;
      last := pos;
      ghost var all, before := Cluster(arg[1..], args[pos + 1..], m), items;
      while more && charPos < |arg| && arg[charPos] != NUL
        invariant 1 <= charPos <= |arg| && pos <= last < |args|
        invariant !more ==> items == before + all.0 && args[last + 1..] == all.1
        invariant more ==>
          var c := Cluster(arg[charPos..], args[last + 1..], m);
          items + c.0 == before + all.0 && c.1 == all.1
        decreases |arg| - charPos
      {
        var c := arg[charPos];
        match KindOf(m, c) {
          case NotDefined =>
            items := items + [Failure(OptError(c, Unexpected))];
          case Single =>
            items := items + [Success(Opt(c, None))];
          case Required =>
            if charPos + 1 < |arg| {
              items := items + [Success(Opt(c, Some(arg[charPos + 1..])))];
              more := false;
            } else if last + 1 == |args| {
              items := items + [Failure(OptError(c, Missing))];
              more := false;
            } else {
              last := last + 1;
              items := items + [Success(Opt(c, Some(args[last])))];
            }
        }
        charPos := charPos + 1;
      }
    }

    /** The body of the loop of `parse_options`, for `args[pos]`. */
    method ParseArgument(args: seq<string>, pos: nat, m: OptMap, ghost all: Parsed) returns (more: bool, next: nat)
      requires pos < |args| && operands == [] && Continues(items, args[pos..], m, all)
      modifies this
      ensures pos < next <= |args|
      ensures more ==> operands == [] && Continues(items, args[next..], m, all)
      ensures !more ==> Parsed(items, operands) == all
    {
      ghost var before, rest := items, args[pos..];
      assert rest[1..] == args[pos + 1..];
      var arg := args[pos];
      more, next := false, pos + 1;
      if |arg| > 0 && arg[0] == '-' {
        if |arg| == 1 {
          LastArgument(before, rest, m, all);
          operands := args[pos..];
        } else if |arg| == 2 && arg[1] == '-' {
          LastArgument(before, rest, m, all);
          operands := args[pos + 1..];
        } else {
          ghost var c := Cluster(arg[1..], rest[1..], m);
          NextArgument(before, rest, m, all);
          var last := ParseCluster(args, pos, m);
          more, next := true, last + 1;
          assert items == before + c.0 && args[next..] == c.1;
        }
      } else {
        LastArgument(before, rest, m, all);
        operands := args[pos..];
      }
    }

    /** The loop of `parse_options`. */
    method ParseArguments(args: seq<string>, m: OptMap)
      requires items == [] && operands == []
      modifies this
      ensures Parsed(items, operands) == Parse(args, m)
    {
      ghost var all := Parse(args, m);
      var more := true;
      var pos := 0;
      assert args[0..] == args;
      while more && pos < |args|
        invariant 0 <= pos <= |args|
        invariant more ==> operands == [] && Continues(items, args[pos..], m, all)
        invariant !more ==> Parsed(items, operands) == all
        decreases |args| - pos
      {
        more, pos := ParseArgument(args, pos, m, all);
      }
    }

    /** `parse_options`; None is the exception for the option string. */
    method ParseOptions(args: seq<string>, options: string) returns (m: Option<OptMap>)
      requires items == [] && operands == []
      modifies this
      ensures m == MapFrom(options, NoOptions())
      ensures m.None? ==> items == [] && operands == []
      ensures m.Some? ==> Parsed(items, operands) == Parse(args, m.value)
    {
      m := BuildOptionMap(options);
      if m.Some? { ParseArguments(args, m.value); }
    }
  }

  /** What is parsed and what is left make up the whole. */
  ghost predicate Continues(items: seq<Item>, rest: seq<string>, m: OptMap, all: Parsed)
  {
    items + Parse(rest, m).items == all.items && Parse(rest, m).operands == all.operands
  }

  /** A dash alone, two dashes or no dash: all that is left are operands. */
  lemma LastArgument(items: seq<Item>, rest: seq<string>, m: OptMap, all: Parsed)
    requires rest != [] && Continues(items, rest, m, all)
    requires rest[0] == [] || rest[0][0] != '-' || |rest[0]| == 1 || (|rest[0]| == 2 && rest[0][1] == '-')
    ensures items == all.items
    ensures all.operands == if |rest[0]| == 2 && rest[0][0] == '-' then rest[1..] else rest
  {
    assert |rest[0]| == 1 && rest[0][0] == '-' ==> rest[0] == "-";
    assert |rest[0]| == 2 && rest[0][0] == '-' && rest[0][1] == '-' ==> rest[0] == "--";
  }

  lemma NextArgument(items: seq<Item>, rest: seq<string>, m: OptMap, all: Parsed)
    requires rest != [] && |rest[0]| > 1 && rest[0][0] == '-' && (|rest[0]| > 2 || rest[0][1] != '-')
    requires Continues(items, rest, m, all)
    ensures var c := Cluster(rest[0][1..], rest[1..], m); Continues(items + c.0, c.1, m, all)
  {
    var c := Cluster(rest[0][1..], rest[1..], m);
    assert rest[0] != "-" && rest[0] != "--";
    assert items + (c.0 + Parse(c.1, m).items) == items + c.0 + Parse(c.1, m).items;
  }

  // ----- the guidelines

  /** The operands are what is left of the arguments. */
  lemma {:induction false} OperandsAreSuffix(args: seq<string>, m: OptMap)
    ensures var o := Parse(args, m).operands;
            |o| <= |args| && o == args[|args| - |o|..]
    decreases |args|
  {
    if args != [] && args[0] != [] && args[0][0] == '-' && args[0] != "-" && args[0] != "--" {
      var c := Cluster(args[0][1..], args[1..], m);
      ClusterLeavesSuffix(args[0][1..], args[1..], m);
      OperandsAreSuffix(c.1, m);
    }
  }

  lemma {:induction false} ClusterLeavesSuffix(s: string, rest: seq<string>, m: OptMap)
    ensures var r := Cluster(s, rest, m).1;
            |r| <= |rest| && r == rest[|rest| - |r|..]
  {
    if s != [] && s[0] != NUL && KindOf(m, s[0]) != Required {
      ClusterLeavesSuffix(s[1..], rest, m);
    }
  }

  /** An option that the map allows, with an argument exactly when it wants one. */
  predicate Allowed(o: Opt, m: OptMap)
  {
    KindOf(m, o.letter) == if o.argument.Some? then Required else Single
  }

  /** An option by itself, and its argument, if any, by itself. */
  function Print(o: Opt): seq<string>
  {
    if o.argument.None? then [['-', o.letter]] else [['-', o.letter], o.argument.value]
  }

  function PrintAll(opts: seq<Opt>): seq<string>
  {
    if opts == [] then [] else Print(opts[0]) + PrintAll(opts[1..])
  }

  function Successes(opts: seq<Opt>): seq<Item>
  {
    if opts == [] then [] else [Success(opts[0])] + Successes(opts[1..])
  }

  lemma PrintedFirst(o: Opt, rest: seq<string>, m: OptMap)
    requires Allowed(o, m)
    ensures var p := Parse(rest, m);
            Parse(Print(o) + rest, m) == Parsed([Success(o)] + p.items, p.operands)
  {
    var args := Print(o) + rest;
    var arg := ['-', o.letter];
    assert args[0] == arg && arg[1..] == [o.letter] && o.letter != '-' && o.letter != NUL;
    if o.argument.None? {
      assert args[1..] == rest;
      assert [o.letter][1..] == [];
      assert Cluster([o.letter], rest, m) == ([Letter(o.letter, m)] + [], rest);
    } else {
      assert args[1..] == [o.argument.value] + rest;
      assert args[1..][1..] == rest;
    }
  }

  /** Whatever the options, their arguments and the operands: printed one by one and followed by `--` and
      the operands, they are parsed as themselves (guideline 10). */
  lemma {:induction false} PrintedParses(opts: seq<Opt>, operands: seq<string>, m: OptMap)
    requires forall k :: 0 <= k < |opts| ==> Allowed(opts[k], m)
    ensures Parse(PrintAll(opts) + ["--"] + operands, m) == Parsed(Successes(opts), operands)
    decreases |opts|
  {
    var tail := ["--"] + operands;
    if opts == [] {
      assert PrintAll(opts) + ["--"] + operands == tail && tail[1..] == operands;
    } else {
      var rest := PrintAll(opts[1..]) + ["--"] + operands;
      assert PrintAll(opts) + ["--"] + operands == Print(opts[0]) + rest;
      PrintedFirst(opts[0], rest, m);
      PrintedParses(opts[1..], operands, m);
    }
  }

  /** What an argument list gave, if it gave no error. */
  function Values(items: seq<Item>): seq<Opt>
    requires forall i :: i in items ==> i.Success?
  {
    if items == [] then [] else [items[0].value] + Values(items[1..])
  }

  lemma {:induction false} ValuesSuccesses(items: seq<Item>)
    requires forall i :: i in items ==> i.Success?
    ensures Successes(Values(items)) == items && |Values(items)| == |items|
    ensures forall k :: 0 <= k < |items| ==> items[k].value == Values(items)[k]
  {
    if items != [] {
      ValuesSuccesses(items[1..]);
      assert items == [items[0]] + items[1..] && items[0] in items;
    }
  }

  /** Options that were parsed are allowed. */
  predicate Sound(i: Item, m: OptMap)
  {
    i.Success? ==> Allowed(i.value, m)
  }

  lemma {:induction false} ClusterIsSound(s: string, rest: seq<string>, m: OptMap)
    ensures forall i :: i in Cluster(s, rest, m).0 ==> Sound(i, m)
  {
    if s != [] && s[0] != NUL && KindOf(m, s[0]) != Required {
      ClusterIsSound(s[1..], rest, m);
      assert Sound(Letter(s[0], m), m);
    }
  }

  lemma {:induction false} ParseIsSound(args: seq<string>, m: OptMap)
    ensures forall i :: i in Parse(args, m).items ==> Sound(i, m)
    decreases |args|
  {
    if args != [] && args[0] != [] && args[0][0] == '-' && args[0] != "-" && args[0] != "--" {
      ClusterIsSound(args[0][1..], args[1..], m);
      ParseIsSound(Cluster(args[0][1..], args[1..], m).1, m);
    }
  }

  /** Every command line without errors has a separate form that is parsed the same. */
  lemma SeparateFormParsesSame(args: seq<string>, m: OptMap)
    requires forall i :: i in Parse(args, m).items ==> i.Success?
    ensures var p := Parse(args, m);
            Parse(PrintAll(Values(p.items)) + ["--"] + p.operands, m) == p
  {
    var p := Parse(args, m);
    var opts := Values(p.items);
    ValuesSuccesses(p.items);
    ParseIsSound(args, m);
    forall k | 0 <= k < |opts| ensures Allowed(opts[k], m) {
      assert p.items[k] in p.items;
      assert Sound(p.items[k], m);
    }
    PrintedParses(opts, p.operands, m);
  }

  lemma {:induction false} ClusterSplits(s: string, t: string, rest: seq<string>, m: OptMap)
    requires forall k :: 0 <= k < |s| ==> s[k] != NUL && KindOf(m, s[k]) != Required
    ensures var c, d := Cluster(s, rest, m), Cluster(t, rest, m);
            c.1 == rest && Cluster(s + t, rest, m) == (c.0 + d.0, d.1)
  {
    if s == [] {
      assert s + t == t && Cluster(s, rest, m).0 + Cluster(t, rest, m).0 == Cluster(t, rest, m).0;
    } else {
      assert (s + t)[1..] == s[1..] + t;
      ClusterSplits(s[1..], t, rest, m);
      var l, c, d := [Letter(s[0], m)], Cluster(s[1..], rest, m).0, Cluster(t, rest, m).0;
      assert l + (c + d) == l + c + d;
    }
  }

  /** Letters without arguments may be put behind one dash with those that follow (guideline 5). */
  lemma ClusterParsesAsSeparated(s: string, t: string, rest: seq<string>, m: OptMap)
    requires s != [] && t != [] && t[0] != '-'
    requires forall k :: 0 <= k < |s| ==> KindOf(m, s[k]) == Single
    ensures Parse([['-'] + s + t] + rest, m) == Parse([['-'] + s, ['-'] + t] + rest, m)
  {
    var one, two := [['-'] + s + t] + rest, [['-'] + s, ['-'] + t] + rest;
    var tail := [['-'] + t] + rest;
    assert one[0][1..] == s + t && one[1..] == rest;
    assert two[0][1..] == s && two[1..] == tail;
    assert tail[0][1..] == t && tail[1..] == rest;
    ClusterSplits(s, t, rest, m);
    ClusterSplits(s, [], tail, m);
    ClusterItems(s, rest, tail, m);
    assert s[0] != '-' && (['-'] + s)[1] == s[0] && (['-'] + s + t)[1] == s[0] && (['-'] + t)[1] == t[0];
    var p := Parse(Cluster(t, rest, m).1, m);
    assert Parse(two, m).items == Cluster(s, tail, m).0 + (Cluster(t, rest, m).0 + p.items);
  }

  lemma {:induction false} ClusterItems(s: string, rest: seq<string>, other: seq<string>, m: OptMap)
    requires forall k :: 0 <= k < |s| ==> s[k] != NUL && KindOf(m, s[k]) != Required
    ensures Cluster(s, rest, m).0 == Cluster(s, other, m).0
  {
    if s != [] { ClusterItems(s[1..], rest, other, m); }
  }

  /** An argument may follow its option at once, exactly when it is not empty. */
  lemma AttachedParsesAsSeparate(c: char, value: string, rest: seq<string>, m: OptMap)
    requires KindOf(m, c) == Required
    ensures Parse([['-', c] + value] + rest, m) == Parse([['-', c], value] + rest, m) <==> value != []
  {
    var one, two := [['-', c] + value] + rest, [['-', c], value] + rest;
    var o := Opt(c, Some(value));
    PrintedFirst(o, rest, m);
    assert two == Print(o) + rest;
    assert one[0][1..] == [c] + value && one[1..] == rest && c != '-' && c != NUL;
    if value != [] {
      assert ([c] + value)[1..] == value;
      assert Parse(one, m).items == [Success(o)] + Parse(rest, m).items;
    } else {
      assert [c] + value == [c];
      EmptyArgumentDiffers(c, rest, m);
      assert ['-', c] + value == ['-', c];
    }
  }

  /** An option with nothing behind it takes the next argument, and not an empty one. */
  lemma EmptyArgumentDiffers(c: char, rest: seq<string>, m: OptMap)
    requires KindOf(m, c) == Required
    ensures var p := Parse(rest, m);
            Parse([['-', c]] + rest, m) != Parsed([Success(Opt(c, Some([])))] + p.items, p.operands)
  {
    var one := [['-', c]] + rest;
    assert one[0][1..] == [c] && one[1..] == rest && c != '-' && c != NUL;
    if rest != [] && rest[0] == [] {
      OperandsAreSuffix(rest[1..], m);
      assert Parse(rest, m).operands == rest;
      assert Parse(one, m).operands == Parse(rest[1..], m).operands;
    } else {
      assert Parse(one, m).items[0] != Success(Opt(c, Some([])));
    }
  }
}
