/** The streaming writer: one context with a stack of tokens, shared by the writer and by the handles of
    open objects and arrays. */
module JsonWriter {
  import opened Wrappers
  import opened Json

  type Token = x: nat | x < 0x1_0000

  datatype Error = ContextClosed | ContextEmpty | InvalidContext | SecondRoot

  /** What a context holds; `out` is all that went to the stream. */
  datatype Ctx = Ctx(closed: bool, out: string, stack: seq<Token>, next: Token, solidus: bool)
  {
    predicate Top(token: Token) { stack != [] && stack[|stack| - 1] == token }
  }

  /** What a handle holds; it is attached until it is closed. */
  datatype Hnd = Hnd(token: Token, isObject: bool, attached: bool, hasElement: bool)

  // ----- what calls do

  /** One more token on the stack. */
  function Pushed(c: Ctx): Ctx
  {
    c.(stack := c.stack + [c.next], next := (c.next + 1) % 0x1_0000)
  }

  /** A value through a handle. Nothing is written after the context was closed, and nothing at all changes
      unless the handle is the innermost. */
  function Put(c: Ctx, h: Hnd, start: string, value: string): (Ctx, Hnd, Option<Error>)
  {
    if c.closed then (c, h.(hasElement := true), None)
    else if !c.Top(h.token) then (c, h, Some(InvalidContext))
    else (c.(out := c.out + start + value), h.(hasElement := true), None)
  }

  /** A container through a handle. */
  function Opened(c: Ctx, h: Hnd, start: string, isObject: bool): (Ctx, Hnd, Result<Hnd, Error>)
  {
    if c.closed then (c, h.(hasElement := true), Failure(ContextClosed))
    else if !c.Top(h.token) then (c, h, Failure(InvalidContext))
    else (Pushed(c).(out := c.out + start + Bracket(isObject)), h.(hasElement := true),
          Success(Hnd(c.next, isObject, true, false)))
  }

  /** The root container. */
  function Rooted(c: Ctx, populated: bool, solidus: bool, token: Token, isObject: bool): (Ctx, Result<Hnd, Error>)
  {
    var d := c.(solidus := solidus);
    if populated then (c, Failure(SecondRoot))
    else if c.closed then (d, Failure(ContextClosed))
    else if c.stack != [] && !c.Top(token) then (d, Failure(InvalidContext))
    else (Pushed(d).(out := c.out + Bracket(isObject)), Success(Hnd(c.next, isObject, true, false)))
  }

  function Bracket(isObject: bool): string { if isObject then "{" else "[" }

  function Closer(isObject: bool): string { if isObject then " }" else " ]" }

  /** Closing a handle; twice is harmless. */
  function Closed(c: Ctx, h: Hnd): (Ctx, Hnd, Option<Error>)
  {
    if !h.attached then (c, h, None)
    else if c.closed then (c, h.(attached := false), None)
    else if !c.Top(h.token) then (c, h, Some(InvalidContext))
    else (c.(out := c.out + Closer(h.isObject), stack := c.stack[..|c.stack| - 1]), h.(attached := false), None)
  }

  /** What goes before a value: in an object, the key too. */
  function Start(h: Hnd, key: string, solidus: bool): string
  {
    Separator(!h.hasElement) + if h.isObject then KeyText(key, solidus) else ""
  }

  // ----- the context

  class Context {
    var closed: bool
    var out: string
    var stack: seq<Token>
    var next: Token
    var solidus: bool

    function View(): Ctx
      reads this
    {
      Ctx(closed, out, stack, next, solidus)
    }

    constructor ()
      ensures View() == Ctx(false, "", [], 0, true)
    {
      closed, out, stack, next, solidus := false, "", [], 0, true;
    }

    /** `register_context`. */
    method Register(token: Token) returns (r: Result<Token, Error>)
      modifies this
      ensures r == if old(closed) then Failure(ContextClosed)
                   else if old(stack) != [] && !old(View()).Top(token) then Failure(InvalidContext)
                   else Success(old(next))
      ensures View() == if r.Success? then Pushed(old(View())) else old(View())
    {
      if closed { return Failure(ContextClosed); }
      if stack != [] && token != stack[|stack| - 1] { return Failure(InvalidContext); }
      r := Success(next);
      stack, next := stack + [next], (next + 1) % 0x1_0000;
    }

    /** `unregister_context`. */
    method Unregister(token: Token) returns (error: Option<Error>)
      modifies this
      ensures error == if old(closed) then None
                       else if old(stack) == [] then Some(ContextEmpty)
                       else if !old(View()).Top(token) then Some(InvalidContext)
                       else None
      ensures View() == if error.Some? || old(closed) then old(View())
                        else old(View()).(stack := old(stack)[..|old(stack)| - 1])
    {
      if closed { return None; }
      if stack == [] { return Some(ContextEmpty); }
      if token != stack[|stack| - 1] { return Some(InvalidContext); }
      stack := stack[..|stack| - 1];
      error := None;
    }

    /** `write`. */
    method Write(token: Token, text: string) returns (r: Result<bool, Error>)
      modifies this
      ensures r == if old(closed) then Success(false)
                   else if !old(View()).Top(token) then Failure(InvalidContext)
                   else Success(true)
      ensures View() == if r == Success(true) then old(View()).(out := old(out) + text) else old(View())
    {
      if closed { return Success(false); }
      if stack == [] || token != stack[|stack| - 1] { return Failure(InvalidContext); }
      out := out + text;
      r := Success(true);
    }
  }

  /** The start of a field, as it is written. */
  lemma FieldPieces(out: string, more: bool, key: string, solidus: bool)
    ensures out + (if more then ", \"" else " \"") + Escaped(key, solidus) + "\": "
         == out + (Separator(!more) + KeyText(key, solidus)) + ""
  {
    assert (if more then ", \"" else " \"") == Separator(!more) + "\"";
    QuotePieces(out, Separator(!more), Escaped(key, solidus));
  }

  lemma QuotePieces(out: string, sep: string, e: string)
    ensures out + (sep + "\"") + e + "\": " == out + (sep + ("\"" + e + "\"" + ": ")) + ""
  {
    assert "\": " == "\"" + ": ";
  }

  /** Opening a container, as it is done: the field's start, a token, a bracket. */
  lemma OpenPieces(c: Ctx, h: Hnd, start: string, isObject: bool)
    requires !c.closed && c.Top(h.token)
    ensures var d := Pushed(Put(c, h, start, "").0);
            d.(out := d.out + Bracket(isObject)) == Opened(c, h, start, isObject).0
  {
    assert c.out + start + "" + Bracket(isObject) == c.out + start + Bracket(isObject);
  }

  /** A value after its start. */
  lemma AfterStart(out: string, start: string, text: string)
    ensures out + start + "" + text == out + start + text
  {
    assert out + start + "" == out + start;
  }

  predicate Scalar(j: Json) { !j.Arr? && !j.Obj? }

  /** A string is quoted, all else is written as its text. */
  method WriteScalar(context: Context, token: Token, value: Json)
    requires Scalar(value)
    modifies context
    ensures context.View() == if old(context.closed) || !old(context.View()).Top(token) then old(context.View())
                              else old(context.View()).(out := old(context.out + Text(value, context.solidus)))
  {
    var r;
    if value.Str? {
      assert context.out + "\"" + Escaped(value.s, context.solidus) + "\""
          == context.out + ("\"" + Escaped(value.s, context.solidus) + "\"");
      r := context.Write(token, "\"");
      var escaped := EscapeString(value.s, context.solidus);
      r := context.Write(token, escaped);
      r := context.Write(token, "\"");
    } else {
      r := context.Write(token, Text(value, context.solidus));
    }
  }

  // ----- handles

  /** `json_writer_object`. */
  class ObjectHandle {
    const token: Token
    const context: Context
    var attached: bool
    var hasElement: bool

    function View(): Hnd
      reads this
    {
      Hnd(token, true, attached, hasElement)
    }

    /** For a token that was just registered. */
    constructor (token: Token, context: Context)
      requires !context.closed && context.View().Top(token)
      modifies context
      ensures this.context == context && View() == Hnd(token, true, true, false)
      ensures context.View() == old(context.View()).(out := old(context.out) + "{")
    {
      this.token, this.context := token, context;
      attached, hasElement := true, false;
      new;
      var r := context.Write(token, "{");
    }

    method WriteNewField(key: string) returns (error: Option<Error>)
      requires attached
      modifies this, context
      ensures (context.View(), View(), error)
           == old(Put(context.View(), View(), Start(View(), key, context.solidus), ""))
    {
      FieldPieces(context.out, hasElement, key, context.solidus);
      var r := context.Write(token, if hasElement then ", \"" else " \"");
      if r.Failure? { return Some(r.error); }
      if !hasElement { hasElement := true; }
      var escaped := EscapeString(key, context.solidus);
      r := context.Write(token, escaped);
      r := context.Write(token, "\": ");
      error := None;
    }

    /** `write_value` and `write_null`. */
    method WriteValue(key: string, value: Json) returns (error: Option<Error>)
      requires attached && Scalar(value)
      modifies this, context
      ensures (context.View(), View(), error)
           == old(Put(context.View(), View(), Start(View(), key, context.solidus), Text(value, context.solidus)))
    {
      AfterStart(context.out, Start(View(), key, context.solidus), Text(value, context.solidus));
      error := WriteNewField(key);
      if error.Some? { return; }
      WriteScalar(context, token, value);
    }

    method WriteObject(key: string) returns (r: Result<ObjectHandle, Error>)
      requires attached
      modifies this, context
      ensures var o := old(Opened(context.View(), View(), Start(View(), key, context.solidus), true));
              && context.View() == o.0 && View() == o.1
              && (r.Success? <==> o.2.Success?)
              && (r.Success? ==> fresh(r.value) && r.value.context == context && r.value.View() == o.2.value)
              && (r.Failure? ==> r.error == o.2.error)
    {
      if !context.closed && context.View().Top(token) {
        OpenPieces(context.View(), View(), Start(View(), key, context.solidus), true);
      }
      var error := WriteNewField(key);
      if error.Some? { return Failure(error.value); }
      var t := context.Register(token);
      if t.Failure? { return Failure(t.error); }
      var h := new ObjectHandle(t.value, context);
      r := Success(h);
    }

    method WriteArray(key: string) returns (r: Result<ArrayHandle, Error>)
      requires attached
      modifies this, context
      ensures var o := old(Opened(context.View(), View(), Start(View(), key, context.solidus), false));
              && context.View() == o.0 && View() == o.1
              && (r.Success? <==> o.2.Success?)
              && (r.Success? ==> fresh(r.value) && r.value.context == context && r.value.View() == o.2.value)
              && (r.Failure? ==> r.error == o.2.error)
    {
      if !context.closed && context.View().Top(token) {
        OpenPieces(context.View(), View(), Start(View(), key, context.solidus), false);
      }
      var error := WriteNewField(key);
      if error.Some? { return Failure(error.value); }
      var t := context.Register(token);
      if t.Failure? { return Failure(t.error); }
      var h := new ArrayHandle(t.value, context);
      r := Success(h);
    }

    /** `close`. */
    method Close() returns (error: Option<Error>)
      modifies this, context
      ensures (context.View(), View(), error) == old(Closed(context.View(), View()))
    {
      if attached {
        var r := context.Write(token, " }");
        if r.Failure? { return Some(r.error); }
        error := context.Unregister(token);
        if error.Some? { return; }
      }
      attached := false;
      error := None;
    }
  }

  /** `json_writer_array`. */
  class ArrayHandle {
    const token: Token
    const context: Context
    var attached: bool
    var hasElement: bool

    function View(): Hnd
      reads this
    {
      Hnd(token, false, attached, hasElement)
    }

    /** For a token that was just registered. */
    constructor (token: Token, context: Context)
      requires !context.closed && context.View().Top(token)
      modifies context
      ensures this.context == context && View() == Hnd(token, false, true, false)
      ensures context.View() == old(context.View()).(out := old(context.out) + "[")
    {
      this.token, this.context := token, context;
      attached, hasElement := true, false;
      new;
      var r := context.Write(token, "[");
    }

    method WriteNewField() returns (error: Option<Error>)
      requires attached
      modifies this, context
      ensures (context.View(), View(), error)
           == old(Put(context.View(), View(), Start(View(), "", context.solidus), ""))
    {
      assert context.out + (Separator(!hasElement) + "") + "" == context.out + Separator(!hasElement);
      var r := context.Write(token, if hasElement then ", " else " ");
      if r.Failure? { return Some(r.error); }
      if !hasElement { hasElement := true; }
      error := None;
    }

    /** `write_value` and `write_null`. */
    method WriteValue(value: Json) returns (error: Option<Error>)
      requires attached && Scalar(value)
      modifies this, context
      ensures (context.View(), View(), error)
           == old(Put(context.View(), View(), Start(View(), "", context.solidus), Text(value, context.solidus)))
    {
      AfterStart(context.out, Start(View(), "", context.solidus), Text(value, context.solidus));
      error := WriteNewField();
      if error.Some? { return; }
      WriteScalar(context, token, value);
    }

    method WriteObject() returns (r: Result<ObjectHandle, Error>)
      requires attached
      modifies this, context
      ensures var o := old(Opened(context.View(), View(), Start(View(), "", context.solidus), true));
              && context.View() == o.0 && View() == o.1
              && (r.Success? <==> o.2.Success?)
              && (r.Success? ==> fresh(r.value) && r.value.context == context && r.value.View() == o.2.value)
              && (r.Failure? ==> r.error == o.2.error)
    {
      if !context.closed && context.View().Top(token) {
        OpenPieces(context.View(), View(), Start(View(), "", context.solidus), true);
      }
      var error := WriteNewField();
      if error.Some? { return Failure(error.value); }
      var t := context.Register(token);
      if t.Failure? { return Failure(t.error); }
      var h := new ObjectHandle(t.value, context);
      r := Success(h);
    }

    method WriteArray() returns (r: Result<ArrayHandle, Error>)
      requires attached
      modifies this, context
      ensures var o := old(Opened(context.View(), View(), Start(View(), "", context.solidus), false));
              && context.View() == o.0 && View() == o.1
              && (r.Success? <==> o.2.Success?)
              && (r.Success? ==> fresh(r.value) && r.value.context == context && r.value.View() == o.2.value)
              && (r.Failure? ==> r.error == o.2.error)
    {
      if !context.closed && context.View().Top(token) {
        OpenPieces(context.View(), View(), Start(View(), "", context.solidus), false);
      }
      var error := WriteNewField();
      if error.Some? { return Failure(error.value); }
      var t := context.Register(token);
      if t.Failure? { return Failure(t.error); }
      var h := new ArrayHandle(t.value, context);
      r := Success(h);
    }

    /** `close`. */
    method Close() returns (error: Option<Error>)
      modifies this, context
      ensures (context.View(), View(), error) == old(Closed(context.View(), View()))
    {
      if attached {
        var r := context.Write(token, " ]");
        if r.Failure? { return Some(r.error); }
        error := context.Unregister(token);
        if error.Some? { return; }
      }
      attached := false;
      error := None;
    }
  }

  // ----- the writer

  /** `json_writer`; its own token stays at the bottom of the stack. */
  class Writer {
    const context: Context
    const token: Token
    var populated: bool
    var solidus: bool

    constructor ()
      ensures fresh(context) && !populated && solidus
      ensures token == 0 && context.View() == Ctx(false, "", [0], 1, true)
    {
      var c := new Context();
      var t := c.Register(0);
      context, populated, solidus := c, false, true;
      token := t.value;
    }

    /** `write_object`. */
    method WriteObject() returns (r: Result<ObjectHandle, Error>)
      modifies this, context
      ensures populated && solidus == old(solidus)
      ensures var o := old(Rooted(context.View(), populated, solidus, token, true));
              && context.View() == o.0
              && (r.Success? <==> o.1.Success?)
              && (r.Success? ==> fresh(r.value) && r.value.context == context && r.value.View() == o.1.value)
              && (r.Failure? ==> r.error == o.1.error)
    {
      if populated { return Failure(SecondRoot); }
      context.solidus := solidus;
      populated := true;
      var t := context.Register(token);
      if t.Failure? { return Failure(t.error); }
      var h := new ObjectHandle(t.value, context);
      r := Success(h);
    }

    /** `write_array`. */
    method WriteArray() returns (r: Result<ArrayHandle, Error>)
      modifies this, context
      ensures populated && solidus == old(solidus)
      ensures var o := old(Rooted(context.View(), populated, solidus, token, false));
              && context.View() == o.0
              && (r.Success? <==> o.1.Success?)
              && (r.Success? ==> fresh(r.value) && r.value.context == context && r.value.View() == o.1.value)
              && (r.Failure? ==> r.error == o.1.error)
    {
      if populated { return Failure(SecondRoot); }
      context.solidus := solidus;
      populated := true;
      var t := context.Register(token);
      if t.Failure? { return Failure(t.error); }
      var h := new ArrayHandle(t.value, context);
      r := Success(h);
    }

    /** `close`. */
    method Close()
      modifies context
      ensures context.View() == old(context.View()).(closed := true)
    {
      context.closed := true;
    }
  }
}
