/** Command lines as they are written: letters behind a dash, with arguments attached or following, unknown
    letters and missing arguments.  The parser of `Options` gives what a line spells, and every line spells
    something. */
module OptionLines {
  import opened Wrappers
  import opened Options

  /** How an argument of letters ends: with nothing more (what follows a NUL is not looked at), or with a
      letter whose argument is attached, is the next one, or is missing. */
  datatype Ending =
    | Plain(ignored: string)
    | Attached(c: char, value: string)
    | Following(c: char, value: string)
    | NoneLeft(c: char)

  datatype Group = Group(letters: string, ending: Ending)

  /** What is written behind the dash. */
  function Behind(g: Group): string
  {
    g.letters + match g.ending
      case Plain(ignored) => ignored
      case Attached(c, value) => [c] + value
      case Following(c, _) => [c]
      case NoneLeft(c) => [c]
  }

  function Spelled(g: Group): seq<string>
  {
    [['-'] + Behind(g)] + if g.ending.Following? then [g.ending.value] else []
  }

  predicate EndingFits(e: Ending, m: OptMap)
  {
    match e
    case Plain(ignored) => ignored == [] || ignored[0] == NUL
    case Attached(c, value) => KindOf(m, c) == Required && value != []
    case Following(c, _) => KindOf(m, c) == Required
    case NoneLeft(c) => KindOf(m, c) == Required
  }

  predicate LettersFit(letters: string, m: OptMap)
  {
    forall k :: 0 <= k < |letters| ==> letters[k] != NUL && KindOf(m, letters[k]) != Required
  }

  /** A dash alone and two dashes are something else. */
  predicate Fits(g: Group, m: OptMap)
  {
    LettersFit(g.letters, m) && EndingFits(g.ending, m) && Behind(g) != "" && Behind(g) != "-"
  }

  /** A known letter is an option, an unknown one an error. */
  function LetterItems(letters: string, m: OptMap): seq<Item>
  {
    if letters == [] then [] else
      var c := letters[0];
      [if KindOf(m, c) == NotDefined then Failure(OptError(c, Unexpected)) else Success(Opt(c, None))]
      + LetterItems(letters[1..], m)
  }

  function EndingItems(e: Ending): seq<Item>
  {
    match e
    case Plain(_) => []
    case Attached(c, value) => [Success(Opt(c, Some(value)))]
    case Following(c, value) => [Success(Opt(c, Some(value)))]
    case NoneLeft(c) => [Failure(OptError(c, Missing))]
  }

  function GroupItems(g: Group, m: OptMap): seq<Item>
  {
    LetterItems(g.letters, m) + EndingItems(g.ending)
  }

  /** A line: groups, perhaps two dashes, and operands. */
  datatype Line = Line(groups: seq<Group>, dashes: bool, operands: seq<string>)

  function SpelledAll(groups: seq<Group>): seq<string>
  {
    if groups == [] then [] else Spelled(groups[0]) + SpelledAll(groups[1..])
  }

  function AllItems(groups: seq<Group>, m: OptMap): seq<Item>
  {
    if groups == [] then [] else GroupItems(groups[0], m) + AllItems(groups[1..], m)
  }

  function Tail(l: Line): seq<string>
  {
    if l.dashes then ["--"] + l.operands else l.operands
  }

  function Written(l: Line): seq<string>
  {
    SpelledAll(l.groups) + Tail(l)
  }

  /** Operands without dashes before them do not look like options. */
  predicate TailFits(l: Line)
  {
    l.dashes || l.operands == [] || l.operands[0] == "" || l.operands[0][0] != '-' || l.operands[0] == "-"
  }

  /** An argument is missing only at the end of the line. */
  predicate LineFits(l: Line, m: OptMap)
  {
    && TailFits(l)
    && (forall k :: 0 <= k < |l.groups| ==> Fits(l.groups[k], m))
    && (forall k :: 0 <= k < |l.groups| && l.groups[k].ending.NoneLeft? ==> k == |l.groups| - 1 && Tail(l) == [])
  }

  // ----- the parser gives what the line spells

  lemma {:induction false} LettersCluster(letters: string, rest: seq<string>, m: OptMap)
    requires LettersFit(letters, m)
    ensures Cluster(letters, rest, m).0 == LetterItems(letters, m)
  {
    if letters != [] { LettersCluster(letters[1..], rest, m); }
  }

  lemma NothingBefore<T>(s: seq<T>)
    ensures [] + s == s
  {
  }

  lemma BehindFirst<T>(x: T, s: seq<T>)
    ensures ([x] + s)[0] == x && ([x] + s)[1..] == s
  {
  }

  lemma EndingCluster(e: Ending, rest: seq<string>, m: OptMap)
    requires EndingFits(e, m) && (e.NoneLeft? ==> rest == [])
    ensures var s := Behind(Group("", e));
            Cluster(s, (if e.Following? then [e.value] else []) + rest, m) == (EndingItems(e), rest)
  {
    NothingBefore(rest);
    match e
    case Plain(ignored) => NothingBefore(ignored);
    case Attached(c, value) => NothingBefore([c] + value); BehindFirst(c, value);
    case Following(c, value) => NothingBefore([c]); BehindFirst(value, rest);
    case NoneLeft(c) => NothingBefore([c]);
  }

  lemma GroupCluster(g: Group, rest: seq<string>, m: OptMap)
    requires Fits(g, m) && (g.ending.NoneLeft? ==> rest == [])
    ensures Cluster(Behind(g), (if g.ending.Following? then [g.ending.value] else []) + rest, m)
         == (GroupItems(g, m), rest)
  {
    var args := (if g.ending.Following? then [g.ending.value] else []) + rest;
    var s := Behind(Group("", g.ending));
    assert Behind(g) == g.letters + s;
    ClusterSplits(g.letters, s, args, m);
    LettersCluster(g.letters, args, m);
    EndingCluster(g.ending, rest, m);
  }

  lemma GroupParses(g: Group, rest: seq<string>, m: OptMap)
    requires Fits(g, m) && (g.ending.NoneLeft? ==> rest == [])
    ensures var p := Parse(rest, m); Parse(Spelled(g) + rest, m) == Parsed(GroupItems(g, m) + p.items, p.operands)
  {
    var args := Spelled(g) + rest;
    assert args[0] == ['-'] + Behind(g) && args[0][1..] == Behind(g);
    assert args[1..] == (if g.ending.Following? then [g.ending.value] else []) + rest;
    GroupCluster(g, rest, m);
    NotDashes(Behind(g));
  }

  lemma NotDashes(s: string)
    ensures ['-'] + s == "-" <==> s == ""
    ensures ['-'] + s == "--" <==> s == "-"
  {
    assert (['-'] + s)[1..] == s && "-"[1..] == "" && "--"[1..] == "-";
    if s == "-" { assert ['-'] + s == "--"; }
  }

  lemma TailParses(l: Line, m: OptMap)
    requires TailFits(l)
    ensures Parse(Tail(l), m) == Parsed([], l.operands)
  {
    if l.dashes { assert (["--"] + l.operands)[1..] == l.operands; }
  }

  /** Whatever the options, their arguments and the errors: the parser gives what the line spells, errors and
      all, in its order. */
  lemma {:induction false} LineParses(l: Line, m: OptMap)
    requires LineFits(l, m)
    ensures Parse(Written(l), m) == Parsed(AllItems(l.groups, m), l.operands)
    decreases |l.groups|
  {
    if l.groups == [] {
      assert Written(l) == Tail(l);
      TailParses(l, m);
    } else {
      var g, next := l.groups[0], l.(groups := l.groups[1..]);
      RestFits(l, m);
      LineParses(next, m);
      WrittenNext(l, g, next);
      GroupParses(g, Written(next), m);
    }
  }

  lemma WrittenNext(l: Line, g: Group, next: Line)
    requires l.groups != [] && g == l.groups[0] && next == l.(groups := l.groups[1..])
    ensures Written(l) == Spelled(g) + Written(next)
  {
  }

  lemma RestFits(l: Line, m: OptMap)
    requires LineFits(l, m) && l.groups != []
    ensures LineFits(l.(groups := l.groups[1..]), m) && Fits(l.groups[0], m)
    ensures l.groups[0].ending.NoneLeft? ==> Written(l.(groups := l.groups[1..])) == []
  {
    var next := l.(groups := l.groups[1..]);
    forall k | 0 <= k < |next.groups| && next.groups[k].ending.NoneLeft?
      ensures k == |next.groups| - 1 && Tail(next) == []
    {
      assert l.groups[k + 1].ending.NoneLeft?;
    }
  }

  // ----- every line spells something

  /** The letters from i on, up to the first that wants an argument, or a NUL. */
  lemma {:induction false} SplitLetters(s: string, i: nat, m: OptMap) returns (n: nat)
    requires i <= |s| && LettersFit(s[..i], m)
    ensures i <= n <= |s| && LettersFit(s[..n], m)
    ensures n < |s| ==> s[n] == NUL || KindOf(m, s[n]) == Required
    decreases |s| - i
  {
    if i == |s| || s[i] == NUL || KindOf(m, s[i]) == Required {
      n := i;
    } else {
      OneMoreLetter(s, i, m);
      n := SplitLetters(s, i + 1, m);
    }
  }

  lemma OneMoreLetter(s: string, i: nat, m: OptMap)
    requires i < |s| && LettersFit(s[..i], m) && s[i] != NUL && KindOf(m, s[i]) != Required
    ensures LettersFit(s[..i + 1], m)
  {
    assert s[..i + 1] == s[..i] + [s[i]];
  }

  /** What an argument and those behind it begin with. */
  lemma FirstGroup(s: string, rest: seq<string>, m: OptMap) returns (g: Group, after: seq<string>)
    requires s != "" && s != "-"
    ensures Fits(g, m) && [['-'] + s] + rest == Spelled(g) + after && |after| <= |rest|
    ensures g.ending.NoneLeft? ==> after == []
  {
    var n := SplitLetters(s, 0, m);
    var t := s[n..];
    assert s == s[..n] + t;
    after := rest;
    if t == [] || t[0] == NUL {
      g := Group(s[..n], Plain(t));
    } else if |t| > 1 {
      g := Group(s[..n], Attached(t[0], t[1..]));
      assert t == [t[0]] + t[1..];
    } else if rest == [] {
      g := Group(s[..n], NoneLeft(t[0]));
      assert t == [t[0]];
    } else {
      g := Group(s[..n], Following(t[0], rest[0]));
      after := rest[1..];
      assert t == [t[0]] && rest == [rest[0]] + rest[1..];
    }
    assert Behind(g) == s;
  }

  lemma {:induction false} EveryLineIsWritten(args: seq<string>, m: OptMap) returns (l: Line)
    ensures LineFits(l, m) && Written(l) == args
    decreases |args|
  {
    if args == [] || args[0] == "" || args[0][0] != '-' || args[0] == "-" {
      l := Line([], false, args);
    } else if args[0] == "--" {
      l := Line([], true, args[1..]);
      assert args == ["--"] + args[1..];
    } else {
      var s := args[0][1..];
      assert args[0] == ['-'] + s && args == [['-'] + s] + args[1..];
      var g, after := FirstGroup(s, args[1..], m);
      var next := EveryLineIsWritten(after, m);
      l := next.(groups := [g] + next.groups);
      OneMoreGroup(g, next, m);
    }
  }

  lemma OneMoreGroup(g: Group, next: Line, m: OptMap)
    requires Fits(g, m) && LineFits(next, m) && (g.ending.NoneLeft? ==> Written(next) == [])
    ensures var l := next.(groups := [g] + next.groups); LineFits(l, m) && Written(l) == Spelled(g) + Written(next)
  {
    var l := next.(groups := [g] + next.groups);
    assert l.groups[1..] == next.groups;
    GroupsAreWritten(next);
  }

  lemma GroupsAreWritten(l: Line)
    ensures l.groups != [] || Tail(l) != [] ==> Written(l) != []
  {
    if l.groups != [] { assert Spelled(l.groups[0]) != []; }
  }

  /** For every line: the parser reports exactly what the line spells. */
  lemma EveryLineParses(args: seq<string>, m: OptMap) returns (l: Line)
    ensures LineFits(l, m) && Written(l) == args
    ensures Parse(args, m) == Parsed(AllItems(l.groups, m), l.operands)
  {
    l := EveryLineIsWritten(args, m);
    LineParses(l, m);
  }

  // ----- errors

  lemma {:induction false} PrintedThen(opts: seq<Opt>, rest: seq<string>, m: OptMap)
    requires forall k :: 0 <= k < |opts| ==> Allowed(opts[k], m)
    ensures var p := Parse(rest, m); Parse(PrintAll(opts) + rest, m) == Parsed(Successes(opts) + p.items, p.operands)
    decreases |opts|
  {
    if opts == [] {
      assert PrintAll(opts) + rest == rest;
    } else {
      var tail := PrintAll(opts[1..]) + rest;
      PrintedNext(opts, rest, tail, Parse(rest, m).items);
      PrintedFirst(opts[0], tail, m);
      PrintedThen(opts[1..], rest, m);
    }
  }

  lemma PrintedNext(opts: seq<Opt>, rest: seq<string>, tail: seq<string>, items: seq<Item>)
    requires opts != [] && tail == PrintAll(opts[1..]) + rest
    ensures PrintAll(opts) + rest == Print(opts[0]) + tail
    ensures Successes(opts) + items == [Success(opts[0])] + (Successes(opts[1..]) + items)
  {
    Assoc(Print(opts[0]), PrintAll(opts[1..]), rest);
    Assoc([Success(opts[0])], Successes(opts[1..]), items);
  }

  lemma Assoc<T>(a: seq<T>, b: seq<T>, c: seq<T>)
    ensures a + b + c == a + (b + c)
  {
  }

  /** An argument that is missing at the end of the line is reported, after all that came before. */
  lemma MissingIsReported(opts: seq<Opt>, c: char, m: OptMap)
    requires (forall k :: 0 <= k < |opts| ==> Allowed(opts[k], m)) && KindOf(m, c) == Required
    ensures Parse(PrintAll(opts) + [['-', c]], m) == Parsed(Successes(opts) + [Failure(OptError(c, Missing))], [])
  {
    var g := Group("", NoneLeft(c));
    assert Behind(g) == [c] && ['-'] + [c] == ['-', c];
    assert Spelled(g) + [] == [['-', c]];
    assert GroupItems(g, m) == [Failure(OptError(c, Missing))];
    GroupParses(g, [], m);
    PrintedThen(opts, [['-', c]], m);
  }

  lemma OneLetter(c: char, m: OptMap)
    requires KindOf(m, c) == NotDefined
    ensures GroupItems(Group([c], Plain("")), m) == [Failure(OptError(c, Unexpected))]
  {
    assert [c][1..] == [];
    var e: Item := Failure(OptError(c, Unexpected));
    assert LetterItems([c], m) == [e] + LetterItems([], m) == [e];
    assert [e] + [] == [e];
  }

  /** A letter that the map does not have is reported, and the rest of the line is parsed. */
  lemma UnexpectedIsReported(opts: seq<Opt>, c: char, rest: seq<string>, m: OptMap)
    requires (forall k :: 0 <= k < |opts| ==> Allowed(opts[k], m)) && KindOf(m, c) == NotDefined
    requires c != '-' && c != NUL
    ensures Parse(PrintAll(opts) + ([['-', c]] + rest), m).operands == Parse(rest, m).operands
    ensures Parse(PrintAll(opts) + ([['-', c]] + rest), m).items
         == Successes(opts) + ([Failure(OptError(c, Unexpected))] + Parse(rest, m).items)
  {
    var g := Group([c], Plain(""));
    assert Behind(g) == [c] && ['-'] + [c] == ['-', c];
    assert Spelled(g) + rest == [['-', c]] + rest;
    OneLetter(c, m);
    GroupParses(g, rest, m);
    PrintedThen(opts, [['-', c]] + rest, m);
  }
}
