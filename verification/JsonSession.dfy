/** Any sequence of calls on a writer and its handles, in or out of order: the output is always a prefix of
    a document. */
module JsonSession {
  import opened Wrappers
  import opened Json
  import opened JsonWriter
  import JsonPrefix

  /** The writer with all handles it ever gave, in the order they were opened. */
  datatype Session = Session(c: Ctx, populated: bool, solidus: bool, handles: seq<Hnd>)

  datatype Call =
    | PutValue(i: nat, key: string, value: Json)
    | OpenIn(i: nat, key: string, isObject: bool)
    | CloseHandle(i: nat)
    | Root(isObject: bool)
    | CloseWriter
    | Configure(solidus: bool)

  function Fresh(): Session
  {
    Session(Ctx(false, "", [0], 1, true), false, true, [])
  }

  /** Values go through handles that were not closed. */
  predicate CanCall(s: Session, call: Call)
  {
    match call
    case PutValue(i, _, value) => i < |s.handles| && s.handles[i].attached && Scalar(value)
    case OpenIn(i, _, _) => i < |s.handles| && s.handles[i].attached
    case CloseHandle(i) => i < |s.handles|
    case _ => true
  }

  function Apply(s: Session, call: Call): (Session, Option<Error>)
    requires CanCall(s, call)
  {
    match call
    case PutValue(i, key, value) =>
      var h := s.handles[i];
      var p := Put(s.c, h, Start(h, key, s.c.solidus), Text(value, s.c.solidus));
      (s.(c := p.0, handles := s.handles[i := p.1]), p.2)
    case OpenIn(i, key, isObject) =>
      var h := s.handles[i];
      var o := Opened(s.c, h, Start(h, key, s.c.solidus), isObject);
      if o.2.Success? then (s.(c := o.0, handles := s.handles[i := o.1] + [o.2.value]), None)
      else (s.(c := o.0, handles := s.handles[i := o.1]), Some(o.2.error))
    case CloseHandle(i) =>
      var e := Closed(s.c, s.handles[i]);
      (s.(c := e.0, handles := s.handles[i := e.1]), e.2)
    case Root(isObject) =>
      var r := Rooted(s.c, s.populated, s.solidus, 0, isObject);
      if r.1.Success? then (s.(c := r.0, populated := true, handles := s.handles + [r.1.value]), None)
      else (s.(c := r.0, populated := true), Some(r.1.error))
    case CloseWriter => (s.(c := s.c.(closed := true)), None)
    case Configure(solidus) => (s.(solidus := solidus), None)
  }

  ghost predicate IsRun(states: seq<Session>, calls: seq<Call>)
  {
    && |states| == |calls| + 1 && states[0] == Fresh()
    && forall k: nat :: k < |calls| ==> CanCall(states[k], calls[k]) && states[k + 1] == Apply(states[k], calls[k]).0
  }

  // ----- the document so far

  /** An open container: the handle that has it, its key in the container around it, and what it holds
      before any container that is open inside it. */
  datatype Frame =
    | ArrFrame(index: nat, key: string, items: Items)
    | ObjFrame(index: nat, key: string, fields: Fields)
  {
    predicate Empty() { if ArrFrame? then items.NoItems? else fields.NoFields? }
    function Finish(): Json { if ArrFrame? then Arr(items) else Obj(fields) }
  }

  /** The open containers from the root inwards, or the finished root. */
  datatype Doc = Doc(frames: seq<Frame>, done: Option<Json>)

  function AppendItem(items: Items, j: Json): Items
  {
    match items
    case NoItems => Item(j, NoItems)
    case Item(head, rest) => Item(head, AppendItem(rest, j))
  }

  function AppendField(fields: Fields, key: string, j: Json): Fields
  {
    match fields
    case NoFields => Field(key, j, NoFields)
    case Field(k, v, rest) => Field(k, v, AppendField(rest, key, j))
  }

  function Add(f: Frame, key: string, j: Json): (g: Frame)
    ensures !g.Empty() && g.index == f.index && g.key == f.key && g.ArrFrame? == f.ArrFrame?
  {
    if f.ArrFrame? then f.(items := AppendItem(f.items, j)) else f.(fields := AppendField(f.fields, key, j))
  }

  function Last<T>(s: seq<T>): T
    requires s != []
  {
    s[|s| - 1]
  }

  function Init<T>(s: seq<T>): (t: seq<T>)
    requires s != []
    ensures |t| == |s| - 1
  {
    s[..|s| - 1]
  }

  function Body(f: Frame, solidus: bool): string
  {
    if f.ArrFrame? then "[" + ItemsText(f.items, true, solidus) else "{" + FieldsText(f.fields, true, solidus)
  }

  /** What goes between a container's last value and the next. */
  function Lead(f: Frame, key: string, solidus: bool): string
  {
    Separator(f.Empty()) + if f.ObjFrame? then KeyText(key, solidus) else ""
  }

  function OpenText(frames: seq<Frame>, solidus: bool): string
    decreases |frames|, 1
  {
    if frames == [] then "" else Around(frames, solidus) + Body(Last(frames), solidus)
  }

  /** What is missing until the root is closed. */
  function Missing(frames: seq<Frame>): string
  {
    if frames == [] then "" else Closer(Last(frames).ObjFrame?) + Missing(Init(frames))
  }

  /** The innermost container is closed and becomes a value of the one around it. */
  function Fold(frames: seq<Frame>): (r: seq<Frame>)
    requires 2 <= |frames|
    ensures |r| == |frames| - 1
  {
    var outer := Init(frames);
    Init(outer) + [Add(Last(outer), Last(frames).key, Last(frames).Finish())]
  }

  /** The root, if everything were closed now. */
  function Collapse(frames: seq<Frame>): (j: Json)
    requires frames != []
    ensures !Scalar(j)
    decreases |frames|
  {
    if |frames| == 1 then frames[0].Finish() else Collapse(Fold(frames))
  }

  function DocText(d: Doc, solidus: bool): string
  {
    if d.done.Some? then Text(d.done.value, solidus) else OpenText(d.frames, solidus)
  }

  // ----- texts of documents

  lemma {:induction false} ItemsTextAppend(items: Items, j: Json, first: bool, solidus: bool)
    ensures ItemsText(AppendItem(items, j), first, solidus)
         == ItemsText(items, first, solidus) + Separator(first && items.NoItems?) + Text(j, solidus)
  {
    if items.Item? {
      ItemsTextAppend(items.rest, j, false, solidus);
      ThreeMore(Separator(first) + Text(items.head, solidus), ItemsText(items.rest, false, solidus),
                Separator(false), Text(j, solidus));
    } else {
      assert ItemsText(Item(j, NoItems), first, solidus) == Separator(first) + Text(j, solidus) + "";
    }
  }

  lemma {:induction false} FieldsTextAppend(fields: Fields, key: string, j: Json, first: bool, solidus: bool)
    ensures FieldsText(AppendField(fields, key, j), first, solidus)
         == FieldsText(fields, first, solidus)
            + (Separator(first && fields.NoFields?) + KeyText(key, solidus)) + Text(j, solidus)
  {
    if fields.Field? {
      FieldsTextAppend(fields.rest, key, j, false, solidus);
      ThreeMore(Separator(first) + KeyText(fields.key, solidus) + Text(fields.value, solidus),
                FieldsText(fields.rest, false, solidus), Separator(false) + KeyText(key, solidus), Text(j, solidus));
    } else {
      assert FieldsText(Field(key, j, NoFields), first, solidus)
          == Separator(first) + KeyText(key, solidus) + Text(j, solidus) + "";
    }
  }

  lemma BodyAdd(f: Frame, key: string, j: Json, solidus: bool)
    ensures Body(Add(f, key, j), solidus) == Body(f, solidus) + Lead(f, key, solidus) + Text(j, solidus)
  {
    if f.ArrFrame? {
      ItemsTextAppend(f.items, j, true, solidus);
      assert Lead(f, key, solidus) == Separator(f.items.NoItems?);
      ThreeMore("[", ItemsText(f.items, true, solidus), Lead(f, key, solidus), Text(j, solidus));
    } else {
      FieldsTextAppend(f.fields, key, j, true, solidus);
      ThreeMore("{", FieldsText(f.fields, true, solidus), Lead(f, key, solidus), Text(j, solidus));
    }
  }

  /** A value added to the innermost container. */
  lemma OpenTextAdd(frames: seq<Frame>, key: string, j: Json, solidus: bool)
    requires frames != []
    ensures var f := Last(frames);
            OpenText(Init(frames) + [Add(f, key, j)], solidus)
            == OpenText(frames, solidus) + Lead(f, key, solidus) + Text(j, solidus)
  {
    var f := Last(frames);
    var r := Init(frames) + [Add(f, key, j)];
    assert Init(r) == Init(frames) && Last(r) == Add(f, key, j);
    var before := Around(frames, solidus);
    assert Around(r, solidus) == before;
    BodyAdd(f, key, j, solidus);
    ThreeMore(before, Body(f, solidus), Lead(f, key, solidus), Text(j, solidus));
  }

  /** What was written before the innermost container. */
  function Around(frames: seq<Frame>, solidus: bool): string
    requires frames != []
    decreases |frames|, 0
  {
    OpenText(Init(frames), solidus)
    + if |frames| == 1 then "" else Lead(Last(Init(frames)), Last(frames).key, solidus)
  }

  lemma Assoc(a: string, b: string, c: string)
    ensures a + (b + c) == a + b + c
  {
  }

  lemma ThreeMore(a: string, b: string, c: string, d: string)
    ensures a + (b + c + d) == a + b + c + d
  {
  }

  lemma OpenTextNew(frames: seq<Frame>, f: Frame, solidus: bool)
    requires frames != []
    ensures OpenText(frames + [f], solidus)
         == OpenText(frames, solidus) + Lead(Last(frames), f.key, solidus) + Body(f, solidus)
  {
    assert Init(frames + [f]) == frames;
  }

  /** Closing the innermost container. */
  lemma OpenTextFold(frames: seq<Frame>, solidus: bool)
    requires 2 <= |frames|
    ensures OpenText(Fold(frames), solidus) == OpenText(frames, solidus) + Closer(Last(frames).ObjFrame?)
  {
    var outer, f := Init(frames), Last(frames);
    var before := OpenText(outer, solidus) + Lead(Last(outer), f.key, solidus);
    OpenTextAdd(outer, f.key, f.Finish(), solidus);
    assert Text(f.Finish(), solidus) == Body(f, solidus) + Closer(f.ObjFrame?);
    assert OpenText(frames, solidus) == before + Body(f, solidus);
    Assoc(before, Body(f, solidus), Closer(f.ObjFrame?));
  }

  lemma MissingFold(frames: seq<Frame>)
    requires 2 <= |frames|
    ensures Missing(frames) == Closer(Last(frames).ObjFrame?) + Missing(Fold(frames))
  {
    assert Init(Fold(frames)) == Init(Init(frames));
  }

  /** With what is missing, the output is the text of a document. */
  lemma {:induction false} CollapseText(frames: seq<Frame>, solidus: bool)
    requires frames != []
    ensures OpenText(frames, solidus) + Missing(frames) == Text(Collapse(frames), solidus)
    decreases |frames|
  {
    if |frames| == 1 {
      RootText(frames, solidus);
    } else {
      CollapseText(Fold(frames), solidus);
      OpenTextFold(frames, solidus);
      MissingFold(frames);
      Assoc(OpenText(frames, solidus), Closer(Last(frames).ObjFrame?), Missing(Fold(frames)));
    }
  }

  lemma RootText(frames: seq<Frame>, solidus: bool)
    requires |frames| == 1
    ensures Missing(frames) == Closer(frames[0].ObjFrame?)
    ensures OpenText(frames, solidus) + Missing(frames) == Text(frames[0].Finish(), solidus)
  {
    assert Init(frames) == [];
    assert Around(frames, solidus) == "";
    assert OpenText(frames, solidus) == Body(frames[0], solidus);
  }

  // ----- what every call keeps

  /** Without wrap-around, handles have their own tokens. */
  ghost predicate Tokens(s: Session)
  {
    s.c.next == |s.handles| + 1 && forall k: nat :: k < |s.handles| ==> s.handles[k].token == k + 1
  }

  /** The stack holds the writer's token and those of the open containers. */
  ghost predicate Stacked(stack: seq<Token>, frames: seq<Frame>)
  {
    |stack| == |frames| + 1 && stack[0] == 0 && forall k: nat :: k < |frames| ==> stack[k + 1] == frames[k].index + 1
  }

  ghost predicate Rising(frames: seq<Frame>, n: nat)
  {
    && (forall k: nat :: k < |frames| ==> frames[k].index < n)
    && forall j: nat, k: nat :: j < k < |frames| ==> frames[j].index < frames[k].index
  }

  ghost predicate Held(handles: seq<Hnd>, f: Frame, innermost: bool)
  {
    && f.index < |handles| && handles[f.index].attached
    && handles[f.index].isObject == f.ObjFrame?
    && handles[f.index].hasElement == (!f.Empty() || !innermost)
  }

  ghost predicate AllHeld(handles: seq<Hnd>, frames: seq<Frame>)
  {
    forall k: nat :: k < |frames| ==> Held(handles, frames[k], k == |frames| - 1)
  }

  ghost predicate InFrames(frames: seq<Frame>, i: nat)
  {
    exists k: nat :: k < |frames| && frames[k].index == i
  }

  ghost predicate Listed(handles: seq<Hnd>, frames: seq<Frame>)
  {
    forall i: nat :: i < |handles| && handles[i].attached ==> InFrames(frames, i)
  }

  /** Stack, containers and flags. */
  ghost predicate Shape(s: Session, d: Doc)
  {
    && Tokens(s) && Stacked(s.c.stack, d.frames) && Rising(d.frames, |s.handles|)
    && (d.frames == [] || d.done.None?)
    && (d.done.Some? ==> !Scalar(d.done.value))
    && (d.frames != [] ==> d.frames[0].index == 0)
    && (s.handles == [] <==> d.frames == [] && d.done.None?)
    && (s.handles != [] ==> s.populated)
    && (!s.c.closed && s.populated ==> s.handles != [])
  }

  /** Handles that are not closed, and open containers. */
  ghost predicate Live(s: Session, d: Doc)
  {
    !s.c.closed ==> AllHeld(s.handles, d.frames) && Listed(s.handles, d.frames)
  }

  ghost predicate Inv(s: Session, d: Doc)
  {
    Shape(s, d) && Live(s, d) && s.c.out == DocText(d, s.c.solidus)
  }

  lemma TopIsInnermost(s: Session, d: Doc, i: nat)
    requires Inv(s, d) && i < |s.handles|
    ensures s.c.Top(s.handles[i].token) <==> d.frames != [] && Last(d.frames).index == i
  {
    if d.frames != [] {
      assert s.c.stack[|d.frames| - 1 + 1] == Last(d.frames).index + 1;
    }
  }

  /** The innermost container with one more value. */
  function Grown(d: Doc, key: string, j: Json): Doc
    requires d.frames != []
  {
    Doc(Init(d.frames) + [Add(Last(d.frames), key, j)], None)
  }

  lemma PutKeepsInv(s: Session, d: Doc, i: nat, key: string, value: Json)
    requires Inv(s, d) && CanCall(s, PutValue(i, key, value)) && !s.c.closed && s.c.Top(s.handles[i].token)
    ensures d.frames != [] && Inv(Apply(s, PutValue(i, key, value)).0, Grown(d, key, value))
  {
    TopIsInnermost(s, d, i);
    var t, e := Apply(s, PutValue(i, key, value)).0, Grown(d, key, value);
    PutResult(s, i, key, value);
    StartOfInnermost(s, d, key);
    OpenTextAdd(d.frames, key, value, s.c.solidus);
    ReplacedTop(s.handles, t.handles, d.frames, e.frames, i);
    PutShape(s, d, t, e);
  }

  /** What an accepted call gives. */
  lemma PutResult(s: Session, i: nat, key: string, value: Json)
    requires CanCall(s, PutValue(i, key, value)) && !s.c.closed && s.c.Top(s.handles[i].token)
    ensures var h, sol, t := s.handles[i], s.c.solidus, Apply(s, PutValue(i, key, value)).0;
            && t.c == s.c.(out := s.c.out + Start(h, key, sol) + Text(value, sol))
            && t.populated == s.populated && t.handles == s.handles[i := h.(hasElement := true)]
            && forall k: nat :: k < |s.handles| ==> t.handles[k].token == s.handles[k].token
  {
  }

  lemma PutShape(s: Session, d: Doc, t: Session, e: Doc)
    requires Shape(s, d) && d.frames != [] && e.done.None? && |e.frames| == |d.frames|
    requires Init(e.frames) == Init(d.frames) && Last(e.frames).index == Last(d.frames).index
    requires t.c.stack == s.c.stack && t.c.next == s.c.next && t.c.closed == s.c.closed && t.populated == s.populated
    requires |t.handles| == |s.handles| && forall k: nat :: k < |s.handles| ==> t.handles[k].token == s.handles[k].token
    requires Rising(e.frames, |t.handles|)
    ensures Shape(t, e)
  {
    SameIndices(d.frames, e.frames, s.c.stack);
    if |d.frames| > 1 { assert e.frames[0] == Init(e.frames)[0] == Init(d.frames)[0] == d.frames[0]; }
  }

  lemma StartOfInnermost(s: Session, d: Doc, key: string)
    requires Inv(s, d) && !s.c.closed && d.frames != []
    ensures var f := Last(d.frames);
            f.index < |s.handles| && Start(s.handles[f.index], key, s.c.solidus) == Lead(f, key, s.c.solidus)
  {
    assert Held(s.handles, d.frames[|d.frames| - 1], true);
  }

  lemma SameIndices(frames: seq<Frame>, next: seq<Frame>, stack: seq<Token>)
    requires Stacked(stack, frames) && frames != [] && |next| == |frames|
    requires Init(next) == Init(frames) && Last(next).index == Last(frames).index
    ensures Stacked(stack, next)
  {
    forall k: nat | k < |next| ensures stack[k + 1] == next[k].index + 1 {
      if k < |next| - 1 { assert next[k] == Init(next)[k] == Init(frames)[k]; }
    }
  }

  /** Only the innermost frame and its handle change. */
  lemma ReplacedTop(handles: seq<Hnd>, after: seq<Hnd>, frames: seq<Frame>, next: seq<Frame>, i: nat)
    requires AllHeld(handles, frames) && Listed(handles, frames) && Rising(frames, |handles|)
    requires frames != [] && Last(frames).index == i && i < |handles|
    requires |next| == |frames| && Init(next) == Init(frames) && Last(next).index == i
    requires Last(next).ObjFrame? == Last(frames).ObjFrame? && !Last(next).Empty()
    requires after == handles[i := handles[i].(hasElement := true)]
    ensures AllHeld(after, next) && Listed(after, next) && Rising(next, |after|)
  {
    var n := |frames|;
    assert forall k: nat :: k < n ==> next[k].index == frames[k].index by {
      assert forall k: nat :: k < n - 1 ==> next[k] == Init(next)[k] && frames[k] == Init(frames)[k];
    }
    forall k: nat | k < n ensures Held(after, next[k], k == n - 1) {
      assert Held(handles, frames[k], k == n - 1);
      if k < n - 1 { assert next[k] == Init(next)[k] == Init(frames)[k] == frames[k]; }
    }
    forall j: nat | j < |after| && after[j].attached ensures InFrames(next, j) {
      var k: nat :| k < n && frames[k].index == j;
      assert next[k].index == j;
    }
  }

  lemma OpenKeepsInv(s: Session, d: Doc, i: nat, key: string, isObject: bool)
    requires Inv(s, d) && CanCall(s, OpenIn(i, key, isObject)) && !s.c.closed && s.c.Top(s.handles[i].token)
    requires |s.handles| < 65534
    ensures Inv(Apply(s, OpenIn(i, key, isObject)).0, Doc(d.frames + [NewFrame(|s.handles|, key, isObject)], None))
  {
    TopIsInnermost(s, d, i);
    var f := NewFrame(|s.handles|, key, isObject);
    var t := Apply(s, OpenIn(i, key, isObject)).0;
    OpenResult(s, i, key, isObject);
    StartOfInnermost(s, d, key);
    OpenedText(d.frames, f, isObject, s.c.solidus);
    PushedFrame(s.handles, t.handles, d.frames, f, i);
    PushedShape(s, d, t, f);
  }

  /** What an accepted call gives. */
  lemma OpenResult(s: Session, i: nat, key: string, isObject: bool)
    requires CanCall(s, OpenIn(i, key, isObject)) && !s.c.closed && s.c.Top(s.handles[i].token) && s.c.next < 65535
    ensures var h, sol, t := s.handles[i], s.c.solidus, Apply(s, OpenIn(i, key, isObject)).0;
            && t.c == Ctx(false, s.c.out + (Start(h, key, sol) + Bracket(isObject)), s.c.stack + [s.c.next],
                          s.c.next + 1, sol)
            && t.populated == s.populated && |t.handles| == |s.handles| + 1
            && t.handles[..|s.handles|] == s.handles[i := h.(hasElement := true)]
            && t.handles[|s.handles|] == Hnd(s.c.next, isObject, true, false)
            && forall k: nat :: k < |s.handles| ==> t.handles[k].token == s.handles[k].token
  {
    Assoc(s.c.out, Start(s.handles[i], key, s.c.solidus), Bracket(isObject));
  }

  lemma OpenedText(frames: seq<Frame>, f: Frame, isObject: bool, solidus: bool)
    requires frames != [] && f == NewFrame(f.index, f.key, isObject)
    ensures OpenText(frames + [f], solidus)
         == OpenText(frames, solidus) + (Lead(Last(frames), f.key, solidus) + Bracket(isObject))
  {
    OpenTextNew(frames, f, solidus);
    NewBody(f, isObject, solidus);
    Assoc(OpenText(frames, solidus), Lead(Last(frames), f.key, solidus), Bracket(isObject));
  }

  lemma PushedShape(s: Session, d: Doc, t: Session, f: Frame)
    requires Shape(s, d) && d.frames != [] && s.c.next < 65535 && f.index == |s.handles|
    requires t.c.stack == s.c.stack + [s.c.next] && t.c.next == s.c.next + 1 && t.populated == s.populated
    requires |t.handles| == |s.handles| + 1 && t.c.closed == s.c.closed
    requires forall k: nat :: k < |s.handles| ==> t.handles[k].token == s.handles[k].token
    requires t.handles[|s.handles|].token == s.c.next
    ensures Shape(t, Doc(d.frames + [f], None))
  {
    var frames := d.frames + [f];
    forall k: nat | k < |frames| ensures t.c.stack[k + 1] == frames[k].index + 1 {
      if k < |d.frames| { assert t.c.stack[k + 1] == s.c.stack[k + 1]; }
    }
  }

  lemma NewBody(f: Frame, isObject: bool, solidus: bool)
    requires f == NewFrame(f.index, f.key, isObject)
    ensures Body(f, solidus) == Bracket(isObject)
  {
  }

  function NewFrame(index: nat, key: string, isObject: bool): Frame
  {
    if isObject then ObjFrame(index, key, NoFields) else ArrFrame(index, key, NoItems)
  }

  lemma PushedFrame(handles: seq<Hnd>, after: seq<Hnd>, frames: seq<Frame>, f: Frame, i: nat)
    requires AllHeld(handles, frames) && Listed(handles, frames) && Rising(frames, |handles|)
    requires frames != [] && Last(frames).index == i && i < |handles|
    requires f.index == |handles| && f.Empty() && |after| == |handles| + 1
    requires after[..|handles|] == handles[i := handles[i].(hasElement := true)]
    requires after[|handles|].attached && after[|handles|].isObject == f.ObjFrame? && !after[|handles|].hasElement
    ensures AllHeld(after, frames + [f]) && Listed(after, frames + [f]) && Rising(frames + [f], |after|)
  {
    var n, next := |frames|, frames + [f];
    assert forall k: nat :: k < |handles| ==> after[k] == after[..|handles|][k];
    forall k: nat | k < n + 1 ensures Held(after, next[k], k == n) {
      if k < n {
        assert Held(handles, frames[k], k == n - 1);
      }
    }
    forall j: nat | j < |after| && after[j].attached ensures InFrames(next, j) {
      if j < |handles| {
        var k: nat :| k < n && frames[k].index == j;
        assert next[k].index == j;
      } else {
        assert next[n].index == j;
      }
    }
  }

  lemma RootKeepsInv(s: Session, d: Doc, isObject: bool)
    requires Inv(s, d) && !s.c.closed && !s.populated
    ensures Inv(Apply(s, Root(isObject)).0, Doc([NewFrame(0, "", isObject)], None))
  {
    var f, t := NewFrame(0, "", isObject), Apply(s, Root(isObject)).0;
    RootResult(s, d, isObject);
    RootShape(t, f);
    RootOpened(f, isObject, t.c.solidus);
    OneHeld(t.handles, f);
  }

  lemma RootResult(s: Session, d: Doc, isObject: bool)
    requires Shape(s, d) && s.c.out == DocText(d, s.c.solidus) && !s.c.closed && !s.populated
    ensures var t := Apply(s, Root(isObject)).0;
            && t.c == Ctx(false, Bracket(isObject), [0, 1], 2, s.solidus)
            && t.populated && t.handles == [Hnd(1, isObject, true, false)]
  {
    assert s.c.stack == [0] && s.c.out == "";
    assert "" + Bracket(isObject) == Bracket(isObject);
  }

  lemma RootShape(t: Session, f: Frame)
    requires f.index == 0 && t.c.stack == [0, 1] && t.c.next == 2 && t.populated && |t.handles| == 1
    requires t.handles[0].token == 1
    ensures Shape(t, Doc([f], None))
  {
    forall k: nat | k < 1 ensures t.c.stack[k + 1] == [f][k].index + 1 {
    }
  }

  lemma RootOpened(f: Frame, isObject: bool, solidus: bool)
    requires f == NewFrame(f.index, f.key, isObject)
    ensures OpenText([f], solidus) == Bracket(isObject)
  {
    assert Init([f]) == [];
    assert Around([f], solidus) == "";
    NewBody(f, isObject, solidus);
  }

  lemma OneHeld(handles: seq<Hnd>, f: Frame)
    requires |handles| == 1 && f.index == 0 && f.Empty()
    requires handles[0].attached && handles[0].isObject == f.ObjFrame? && !handles[0].hasElement
    ensures AllHeld(handles, [f]) && Listed(handles, [f])
  {
    assert [f][0].index == 0;
    assert InFrames([f], 0);
  }

  /** The innermost container, finished. */
  function Ended(d: Doc): Doc
    requires d.frames != []
  {
    if |d.frames| == 1 then Doc([], Some(d.frames[0].Finish())) else Doc(Fold(d.frames), None)
  }

  lemma CloseKeepsInv(s: Session, d: Doc, i: nat)
    requires Inv(s, d) && CanCall(s, CloseHandle(i)) && !s.c.closed && s.handles[i].attached
    requires s.c.Top(s.handles[i].token)
    ensures d.frames != [] && Inv(Apply(s, CloseHandle(i)).0, Ended(d))
  {
    TopIsInnermost(s, d, i);
    var t, e := Apply(s, CloseHandle(i)).0, Ended(d);
    CloseResult(s, i);
    InnermostKind(s, d);
    EndedText(d, s.c.solidus);
    PoppedFrame(s.handles, t.handles, d.frames, e.frames, i);
    PoppedShape(s, d, t, e);
  }

  lemma InnermostKind(s: Session, d: Doc)
    requires Live(s, d) && !s.c.closed && d.frames != []
    ensures var f := Last(d.frames);
            f.index < |s.handles| && s.handles[f.index].isObject == f.ObjFrame?
  {
    assert Held(s.handles, d.frames[|d.frames| - 1], true);
  }

  lemma CloseResult(s: Session, i: nat)
    requires CanCall(s, CloseHandle(i)) && !s.c.closed && s.handles[i].attached && s.c.Top(s.handles[i].token)
    ensures var h, t := s.handles[i], Apply(s, CloseHandle(i)).0;
            && t.c == s.c.(out := s.c.out + Closer(h.isObject), stack := s.c.stack[..|s.c.stack| - 1])
            && t.populated == s.populated && t.handles == s.handles[i := h.(attached := false)]
            && forall k: nat :: k < |s.handles| ==> t.handles[k].token == s.handles[k].token
  {
  }

  lemma PoppedShape(s: Session, d: Doc, t: Session, e: Doc)
    requires Shape(s, d) && d.frames != [] && e == Ended(d)
    requires t.c.stack == s.c.stack[..|s.c.stack| - 1] && t.c.next == s.c.next && t.c.closed == s.c.closed
    requires t.populated == s.populated && |t.handles| == |s.handles|
    requires forall k: nat :: k < |s.handles| ==> t.handles[k].token == s.handles[k].token
    requires Rising(e.frames, |t.handles|)
    ensures Shape(t, e)
  {
    PoppedToken(s.c.stack, d.frames, e.frames);
    if |d.frames| > 1 { FoldedFrame(d.frames, 0); }
  }

  lemma EndedText(d: Doc, solidus: bool)
    requires d.frames != [] && d.done.None?
    ensures DocText(Ended(d), solidus) == DocText(d, solidus) + Closer(Last(d.frames).ObjFrame?)
  {
    if |d.frames| == 1 {
      RootText(d.frames, solidus);
    } else {
      OpenTextFold(d.frames, solidus);
    }
  }

  lemma PoppedToken(stack: seq<Token>, frames: seq<Frame>, next: seq<Frame>)
    requires Stacked(stack, frames) && frames != [] && next == if |frames| == 1 then [] else Fold(frames)
    ensures Stacked(stack[..|stack| - 1], next)
  {
    forall k: nat | k < |next| ensures stack[..|stack| - 1][k + 1] == next[k].index + 1 {
      FoldedFrame(frames, k);
    }
  }

  lemma FoldedFrame(frames: seq<Frame>, k: nat)
    requires 2 <= |frames| && k < |frames| - 1
    ensures var f := Fold(frames)[k];
            && f.index == frames[k].index && f.ObjFrame? == frames[k].ObjFrame?
            && (if k < |frames| - 2 then f == frames[k] else !f.Empty())
  {
  }

  lemma PoppedFrame(handles: seq<Hnd>, after: seq<Hnd>, frames: seq<Frame>, next: seq<Frame>, i: nat)
    requires AllHeld(handles, frames) && Listed(handles, frames) && Rising(frames, |handles|)
    requires frames != [] && Last(frames).index == i && i < |handles|
    requires next == if |frames| == 1 then [] else Fold(frames)
    requires after == handles[i := handles[i].(attached := false)]
    ensures AllHeld(after, next) && Listed(after, next) && Rising(next, |after|)
  {
    var n := |frames| - 1;
    forall k: nat | k < n
      ensures Held(after, next[k], k + 1 == n) && next[k].index == frames[k].index < i
    {
      FrameBelow(handles, after, frames, next, i, k);
    }
    PoppedIsListed(handles, after, frames, next, i, n);
  }

  lemma FrameBelow(handles: seq<Hnd>, after: seq<Hnd>, frames: seq<Frame>, next: seq<Frame>, i: nat, k: nat)
    requires AllHeld(handles, frames) && Rising(frames, |handles|)
    requires k + 1 < |frames| && Last(frames).index == i && i < |handles| && next == Fold(frames)
    requires after == handles[i := handles[i].(attached := false)]
    ensures k < |next| && Held(after, next[k], k + 2 == |frames|) && next[k].index == frames[k].index < i
  {
    FoldedFrame(frames, k);
    assert Held(handles, frames[k], k == |frames| - 1);
    assert frames[k].index < frames[|frames| - 1].index;
  }

  lemma PoppedIsListed(handles: seq<Hnd>, after: seq<Hnd>, frames: seq<Frame>, next: seq<Frame>, i: nat, n: nat)
    requires Listed(handles, frames) && |frames| == n + 1 && |next| == n && frames[n].index == i && i < |handles|
    requires forall k: nat :: k < n ==> next[k].index == frames[k].index
    requires after == handles[i := handles[i].(attached := false)]
    ensures Listed(after, next)
  {
    forall j: nat | j < |after| && after[j].attached ensures InFrames(next, j) {
      assert handles[j].attached && j != i;
      var k: nat :| k < |frames| && frames[k].index == j;
      assert next[k].index == j;
    }
  }

  /** What a call that finds the context closed leaves as it is. */
  ghost predicate SameButFlags(s: Session, t: Session)
  {
    && t.c.out == s.c.out && t.c.stack == s.c.stack && t.c.next == s.c.next && t.c.closed == s.c.closed
    && (s.handles != [] ==> t.c.solidus == s.c.solidus)
    && |t.handles| == |s.handles| && (s.populated ==> t.populated)
    && forall k: nat :: k < |s.handles| ==> t.handles[k].token == s.handles[k].token
  }

  lemma ClosedResult(s: Session, d: Doc, call: Call)
    requires Inv(s, d) && CanCall(s, call) && s.c.closed
    ensures SameButFlags(s, Apply(s, call).0)
  {
  }

  lemma ClosedShape(s: Session, d: Doc, t: Session)
    requires Inv(s, d) && s.c.closed && SameButFlags(s, t)
    ensures Inv(t, d)
  {
  }

  /** Such a call only touches its handle. */
  lemma ClosedKeepsInv(s: Session, d: Doc, call: Call)
    requires Inv(s, d) && CanCall(s, call) && s.c.closed
    ensures Inv(Apply(s, call).0, d) && Apply(s, call).0.c.out == s.c.out
    ensures Apply(s, call).0.c.stack == s.c.stack && |Apply(s, call).0.handles| == |s.handles|
  {
    ClosedResult(s, d, call);
    ClosedShape(s, d, Apply(s, call).0);
  }

  predicate Accepts(s: Session, call: Call)
  {
    match call
    case PutValue(i, _, _) => i < |s.handles| && s.c.Top(s.handles[i].token)
    case OpenIn(i, _, _) => i < |s.handles| && s.c.Top(s.handles[i].token)
    case CloseHandle(i) => i < |s.handles| && s.handles[i].attached && s.c.Top(s.handles[i].token)
    case Root(_) => !s.populated
    case _ => false
  }

  /** A call on an open writer through a handle that is not the innermost, or for a second root, throws and
      leaves output, separators, stack and handles as they were. */
  lemma RejectedChangesNothing(s: Session, call: Call)
    requires CanCall(s, call) && !s.c.closed && !Accepts(s, call) && !call.CloseWriter? && !call.Configure?
    ensures Apply(s, call).0 == s
    ensures Apply(s, call).1 ==
      if call.Root? then Some(SecondRoot)
      else if call.CloseHandle? && !s.handles[call.i].attached then None
      else Some(InvalidContext)
  {
    match call
    case PutValue(i, _, _) => assert s.handles[i := s.handles[i]] == s.handles;
    case OpenIn(i, _, _) => assert s.handles[i := s.handles[i]] == s.handles;
    case CloseHandle(i) => assert s.handles[i := s.handles[i]] == s.handles;
    case Root(_) =>
  }

  /** What an accepted call makes of the document. */
  function Next(s: Session, d: Doc, call: Call): Doc
  {
    if s.c.closed || !Accepts(s, call) then d
    else match call
      case PutValue(_, key, value) => if d.frames == [] then d else Grown(d, key, value)
      case OpenIn(_, key, isObject) => Doc(d.frames + [NewFrame(|s.handles|, key, isObject)], None)
      case CloseHandle(_) => if d.frames == [] then d else Ended(d)
      case Root(isObject) => Doc([NewFrame(0, "", isObject)], None)
      case _ => d
  }

  lemma StepKeepsInv(s: Session, d: Doc, call: Call)
    requires Inv(s, d) && CanCall(s, call) && |Apply(s, call).0.handles| <= 65534
    ensures Inv(Apply(s, call).0, Next(s, d, call))
  {
    if s.c.closed {
      ClosedKeepsInv(s, d, call);
    } else if Accepts(s, call) {
      match call
      case PutValue(i, key, value) => PutKeepsInv(s, d, i, key, value);
      case OpenIn(i, key, isObject) => OpenKeepsInv(s, d, i, key, isObject);
      case CloseHandle(i) => CloseKeepsInv(s, d, i);
      case Root(isObject) => RootKeepsInv(s, d, isObject);
    } else if !call.CloseWriter? && !call.Configure? {
      RejectedChangesNothing(s, call);
    } else {
      OtherKeepsInv(s, d, call);
    }
  }

  lemma OtherKeepsInv(s: Session, d: Doc, call: Call)
    requires Inv(s, d) && (call.CloseWriter? || call.Configure?)
    ensures Inv(Apply(s, call).0, d)
  {
  }

  lemma HandlesStay(s: Session, call: Call)
    requires CanCall(s, call)
    ensures |s.handles| <= |Apply(s, call).0.handles|
  {
  }

  /** The document after n calls of a run. */
  ghost function DocAfter(states: seq<Session>, calls: seq<Call>, n: nat): Doc
    requires n <= |calls| && n < |states|
  {
    if n == 0 then Doc([], None) else Next(states[n - 1], DocAfter(states, calls, n - 1), calls[n - 1])
  }

  lemma {:induction false} RunKeepsInv(states: seq<Session>, calls: seq<Call>, n: nat)
    requires IsRun(states, calls) && n <= |calls| && |states[n].handles| <= 65534
    ensures Inv(states[n], DocAfter(states, calls, n))
  {
    if n > 0 {
      HandlesStay(states[n - 1], calls[n - 1]);
      RunKeepsInv(states, calls, n - 1);
      StepKeepsInv(states[n - 1], DocAfter(states, calls, n - 1), calls[n - 1]);
    }
  }

  // ----- main results

  /** The document j is written but for `missing`. */
  predicate WrittenUpTo(out: string, j: Json, missing: string, solidus: bool)
  {
    !Scalar(j) && out + missing == Text(j, solidus)
  }

  /** Whatever the calls: the output is nothing yet, or the text of a document up to some point. */
  lemma OutputIsPrefix(states: seq<Session>, calls: seq<Call>)
    requires IsRun(states, calls) && |states[|calls|].handles| <= 65534
    ensures var s := states[|calls|];
            if s.handles == [] then s.c.out == ""
            else exists j, missing :: WrittenUpTo(s.c.out, j, missing, s.c.solidus)
  {
    var s, d := states[|calls|], DocAfter(states, calls, |calls|);
    RunKeepsInv(states, calls, |calls|);
    if d.done.Some? {
      assert s.c.out + "" == s.c.out;
      assert WrittenUpTo(s.c.out, d.done.value, "", s.c.solidus);
    } else if d.frames != [] {
      CollapseText(d.frames, s.c.solidus);
      assert WrittenUpTo(s.c.out, Collapse(d.frames), Missing(d.frames), s.c.solidus);
    }
  }

  /** Only the writer's own token is left. */
  predicate RootClosed(s: Session)
  {
    s.handles != [] && |s.c.stack| == 1
  }

  /** The root container is closed by an accepted call while the writer is open. */
  ghost predicate ClosesRoot(s: Session, call: Call)
  {
    !s.c.closed && call == CloseHandle(0) && Accepts(s, call)
  }

  /** The output is a whole text exactly when the root container was closed before the writer. */
  lemma CompleteIffRootClosed(states: seq<Session>, calls: seq<Call>)
    requires IsRun(states, calls) && |states[|calls|].handles| <= 65534
    ensures var s := states[|calls|];
            && (Parse(s.c.out, false).Some? <==> RootClosed(s))
            && (RootClosed(s) <==> exists k: nat :: k < |calls| && ClosesRoot(states[k], calls[k]))
            && (RootClosed(s) ==> exists j :: WrittenUpTo(s.c.out, j, "", s.c.solidus))
  {
    var s, d := states[|calls|], DocAfter(states, calls, |calls|);
    RunKeepsInv(states, calls, |calls|);
    RootClosedInTime(states, calls, |calls|);
    if d.done.Some? {
      assert s.c.out + "" == s.c.out;
      assert WrittenUpTo(s.c.out, d.done.value, "", s.c.solidus);
      TextRoundTrip(d.done.value, s.c.solidus);
    } else if d.frames != [] {
      CollapseText(d.frames, s.c.solidus);
      MissingShows(d.frames);
      JsonPrefix.NoProperPrefix(Collapse(d.frames), s.c.solidus, s.c.out, Missing(d.frames));
    }
  }

  lemma MissingShows(frames: seq<Frame>)
    requires frames != []
    ensures SkipWs(Missing(frames)) != []
  {
    var m := Missing(frames);
    assert m[0] == ' ' && m[1..] != [] && !IsWs(m[1..][0]);
  }

  lemma {:induction false} RootClosedInTime(states: seq<Session>, calls: seq<Call>, n: nat)
    requires IsRun(states, calls) && n <= |calls| && |states[n].handles| <= 65534
    ensures RootClosed(states[n]) <==> exists k: nat :: k < n && ClosesRoot(states[k], calls[k])
  {
    if n > 0 {
      HandlesStay(states[n - 1], calls[n - 1]);
      RootClosedInTime(states, calls, n - 1);
      RunKeepsInv(states, calls, n - 1);
      RootClosedStep(states[n - 1], DocAfter(states, calls, n - 1), calls[n - 1]);
    }
  }

  lemma RootClosedStep(s: Session, d: Doc, call: Call)
    requires Inv(s, d) && CanCall(s, call) && |Apply(s, call).0.handles| <= 65534
    ensures RootClosed(Apply(s, call).0) <==> RootClosed(s) || ClosesRoot(s, call)
  {
    if s.c.closed {
      ClosedKeepsInv(s, d, call);
    } else if Accepts(s, call) {
      if call.PutValue? || call.OpenIn? || call.CloseHandle? { TopIsInnermost(s, d, call.i); }
    } else if !call.CloseWriter? && !call.Configure? {
      RejectedChangesNothing(s, call);
    }
  }

  /** A call that writes through a handle is accepted exactly when every handle opened later is closed. */
  lemma OnlyInnermostWrites(states: seq<Session>, calls: seq<Call>, call: Call)
    requires IsRun(states, calls)
    requires var s := states[|calls|];
             |s.handles| <= 65534 && !s.c.closed && CanCall(s, call) && (call.PutValue? || call.OpenIn?)
    ensures var s := states[|calls|];
            Apply(s, call).1 == None <==> forall k: nat :: call.i < k < |s.handles| ==> !s.handles[k].attached
  {
    var s, d := states[|calls|], DocAfter(states, calls, |calls|);
    RunKeepsInv(states, calls, |calls|);
    TopIsInnermost(s, d, call.i);
    assert InFrames(d.frames, call.i);
    var m := |d.frames| - 1;
    assert Held(s.handles, d.frames[m], true);
    if call.i == d.frames[m].index {
      forall k: nat | call.i < k < |s.handles| ensures !s.handles[k].attached {
        assert s.handles[k].attached ==> InFrames(d.frames, k);
      }
    }
  }

  // ----- errors, and the configuration

  /** What a call on a closed writer gives: values go nowhere without an error, containers are refused, and
      handles can be closed. */
  lemma ClosedCalls(s: Session, call: Call)
    requires CanCall(s, call) && s.c.closed
    ensures Apply(s, call).1 ==
      match call
      case OpenIn(_, _, _) => Some(ContextClosed)
      case Root(_) => Some(if s.populated then SecondRoot else ContextClosed)
      case _ => None
    ensures var t := Apply(s, call).0;
            && t.c.out == s.c.out && t.c.closed && |t.handles| == |s.handles|
            && (call.CloseHandle? ==> !t.handles[call.i].attached)
            && (call.Root? ==> t.populated)
  {
  }

  /** What an accepted call does besides writing. */
  lemma AcceptedCalls(s: Session, call: Call)
    requires CanCall(s, call) && !s.c.closed && Accepts(s, call) && (call.Root? ==> s.c.stack == [0])
    ensures var (t, error) := Apply(s, call);
            && error == None && !t.c.closed
            && (call.PutValue? || call.OpenIn? ==> t.handles[call.i].hasElement && t.handles[call.i].attached)
            && (call.CloseHandle? ==> !t.handles[call.i].attached && |t.c.stack| == |s.c.stack| - 1)
            && (call.OpenIn? || call.Root? ==>
                |t.handles| == |s.handles| + 1 && t.c.stack == s.c.stack + [t.handles[|s.handles|].token]
                && t.handles[|s.handles|].attached && !t.handles[|s.handles|].hasElement
                && t.handles[|s.handles|].isObject == call.isObject)
  {
  }

  /** The setting of `escape_solidus` after calls of the writer. */
  function Configured(calls: seq<Call>): bool
  {
    if calls == [] then true
    else
      var last := calls[|calls| - 1];
      if last.Configure? then last.solidus else Configured(calls[..|calls| - 1])
  }

  /** What a call makes of the setting. */
  ghost predicate TakesSetting(s: Session, call: Call, t: Session)
  {
    && t.solidus == (if call.Configure? then call.solidus else s.solidus)
    && t.populated == (s.populated || call.Root?)
    && t.c.solidus == (if call.Root? && !s.populated then s.solidus else s.c.solidus)
  }

  lemma StepTakesSetting(states: seq<Session>, calls: seq<Call>, k: nat)
    requires IsRun(states, calls) && k + 1 < |states|
    ensures TakesSetting(states[k], calls[k], states[k + 1])
  {
    assert states[k + 1] == Apply(states[k], calls[k]).0;
  }

  lemma ConfiguredNext(calls: seq<Call>, m: nat)
    requires m < |calls|
    ensures Configured(calls[..m + 1]) == if calls[m].Configure? then calls[m].solidus else Configured(calls[..m])
  {
    assert calls[..m + 1][..m] == calls[..m];
  }

  lemma {:induction false} ConfiguredInRun(states: seq<Session>, calls: seq<Call>, n: nat)
    requires IsRun(states, calls) && n <= |calls|
    ensures states[n].solidus == Configured(calls[..n])
  {
    if n > 0 {
      var m: nat := n - 1;
      ConfiguredInRun(states, calls, m);
      StepTakesSetting(states, calls, m);
      ConfiguredNext(calls, m);
    }
  }

  lemma {:induction false} NotPopulated(states: seq<Session>, calls: seq<Call>, n: nat)
    requires IsRun(states, calls) && n <= |calls| && forall k: nat :: k < n ==> !calls[k].Root?
    ensures !states[n].populated
  {
    if n > 0 {
      var m: nat := n - 1;
      NotPopulated(states, calls, m);
      StepTakesSetting(states, calls, m);
    }
  }

  /** The first call for a root takes the setting of that moment for all that is written after it. */
  lemma {:induction false} RootTakesConfiguration(states: seq<Session>, calls: seq<Call>, r: nat, n: nat)
    requires IsRun(states, calls) && r < n <= |calls|
    requires calls[r].Root? && forall k: nat :: k < r ==> !calls[k].Root?
    ensures states[n].c.solidus == Configured(calls[..r]) && states[n].populated
    decreases n
  {
    var m: nat := n - 1;
    StepTakesSetting(states, calls, m);
    if r < m {
      RootTakesConfiguration(states, calls, r, m);
    } else {
      ConfiguredInRun(states, calls, r);
      NotPopulated(states, calls, r);
    }
  }
}
