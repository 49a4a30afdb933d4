/** Whole values written through nested handles, each closed before the next. */
module JsonTree {
  import opened Wrappers
  import opened Json
  import opened JsonWriter

  /** The context of c with more text; only its next token may differ too. */
  predicate Grown(c: Ctx, d: Ctx, text: string)
  {
    d == c.(out := c.out + text, next := d.next)
  }

  method WriteArrayField(h: ObjectHandle, key: string, items: Items)
    requires h.attached && !h.context.closed && h.context.View().Top(h.token)
    modifies h, h.context
    ensures h.View() == old(h.View()).(hasElement := true)
    ensures Grown(old(h.context.View()), h.context.View(),
                  old(Start(h.View(), key, h.context.solidus)) + Text(Arr(items), h.context.solidus))
    decreases items, 1
  {
    ghost var c := h.context.View();
    ghost var start := Start(h.View(), key, c.solidus);
    var r := h.WriteArray(key);
    var child := r.value;
    WriteItems(child, items);
    var e := child.Close();
    ArrayNested(c.out, start, items, c.solidus);
  }

  method WriteObjectField(h: ObjectHandle, key: string, fields: Fields)
    requires h.attached && !h.context.closed && h.context.View().Top(h.token)
    modifies h, h.context
    ensures h.View() == old(h.View()).(hasElement := true)
    ensures Grown(old(h.context.View()), h.context.View(),
                  old(Start(h.View(), key, h.context.solidus)) + Text(Obj(fields), h.context.solidus))
    decreases fields, 1
  {
    ghost var c := h.context.View();
    ghost var start := Start(h.View(), key, c.solidus);
    var r := h.WriteObject(key);
    var child := r.value;
    WriteFields(child, fields);
    var e := child.Close();
    ObjectNested(c.out, start, fields, c.solidus);
  }

  /** A value in an object. */
  method WriteField(h: ObjectHandle, key: string, j: Json)
    requires h.attached && !h.context.closed && h.context.View().Top(h.token)
    modifies h, h.context
    ensures h.View() == old(h.View()).(hasElement := true)
    ensures Grown(old(h.context.View()), h.context.View(),
                  old(Start(h.View(), key, h.context.solidus)) + Text(j, h.context.solidus))
    decreases j, 0
  {
    match j
    case Arr(items) => WriteArrayField(h, key, items);
    case Obj(fields) => WriteObjectField(h, key, fields);
    case _ =>
      ghost var c := h.context.View();
      ghost var start := Start(h.View(), key, c.solidus);
      var e := h.WriteValue(key, j);
      Nested(c.out, start, Text(j, c.solidus), "", "");
  }

  method WriteArrayItem(h: ArrayHandle, items: Items)
    requires h.attached && !h.context.closed && h.context.View().Top(h.token)
    modifies h, h.context
    ensures h.View() == old(h.View()).(hasElement := true)
    ensures Grown(old(h.context.View()), h.context.View(),
                  old(Separator(!h.hasElement)) + Text(Arr(items), h.context.solidus))
    decreases items, 1
  {
    ghost var c := h.context.View();
    ghost var start := Separator(!h.hasElement);
    assert Start(h.View(), "", c.solidus) == start;
    var r := h.WriteArray();
    var child := r.value;
    WriteItems(child, items);
    var e := child.Close();
    ArrayNested(c.out, start, items, c.solidus);
  }

  method WriteObjectItem(h: ArrayHandle, fields: Fields)
    requires h.attached && !h.context.closed && h.context.View().Top(h.token)
    modifies h, h.context
    ensures h.View() == old(h.View()).(hasElement := true)
    ensures Grown(old(h.context.View()), h.context.View(),
                  old(Separator(!h.hasElement)) + Text(Obj(fields), h.context.solidus))
    decreases fields, 1
  {
    ghost var c := h.context.View();
    ghost var start := Separator(!h.hasElement);
    assert Start(h.View(), "", c.solidus) == start;
    var r := h.WriteObject();
    var child := r.value;
    WriteFields(child, fields);
    var e := child.Close();
    ObjectNested(c.out, start, fields, c.solidus);
  }

  /** A value in an array. */
  method WriteItem(h: ArrayHandle, j: Json)
    requires h.attached && !h.context.closed && h.context.View().Top(h.token)
    modifies h, h.context
    ensures h.View() == old(h.View()).(hasElement := true)
    ensures Grown(old(h.context.View()), h.context.View(),
                  old(Separator(!h.hasElement)) + Text(j, h.context.solidus))
    decreases j, 0
  {
    match j
    case Arr(items) => WriteArrayItem(h, items);
    case Obj(fields) => WriteObjectItem(h, fields);
    case _ =>
      ghost var c := h.context.View();
      ghost var start := Separator(!h.hasElement);
      assert Start(h.View(), "", c.solidus) == start;
      var e := h.WriteValue(j);
      Nested(c.out, start, Text(j, c.solidus), "", "");
  }

  lemma Nested(out: string, start: string, open: string, body: string, close: string)
    ensures out + start + open + body + close == out + (start + (open + body + close))
    ensures out + start + open == out + (start + open)
  {
  }

  lemma ArrayNested(out: string, start: string, items: Items, solidus: bool)
    ensures out + start + "[" + ItemsText(items, true, solidus) + " ]" == out + (start + Text(Arr(items), solidus))
  {
    Nested(out, start, "[", ItemsText(items, true, solidus), " ]");
  }

  lemma ObjectNested(out: string, start: string, fields: Fields, solidus: bool)
    ensures out + start + "{" + FieldsText(fields, true, solidus) + " }" == out + (start + Text(Obj(fields), solidus))
  {
    Nested(out, start, "{", FieldsText(fields, true, solidus), " }");
  }

  method WriteItems(h: ArrayHandle, items: Items)
    requires h.attached && !h.context.closed && h.context.View().Top(h.token)
    modifies h, h.context
    ensures h.View() == old(h.View()).(hasElement := old(h.hasElement) || items.Item?)
    ensures Grown(old(h.context.View()), h.context.View(),
                  ItemsText(items, !old(h.hasElement), h.context.solidus))
    decreases items, 0
  {
    if items.Item? {
      ghost var c, first := h.context.View(), !h.hasElement;
      WriteItem(h, items.head);
      WriteItems(h, items.rest);
      Nested(c.out, Separator(first), Text(items.head, c.solidus), ItemsText(items.rest, false, c.solidus), "");
    }
  }

  lemma FieldFirst(out: string, start: string, fields: Fields, first: bool, solidus: bool)
    requires fields.Field? && start == Separator(first) + KeyText(fields.key, solidus)
    ensures out + (start + Text(fields.value, solidus)) + FieldsText(fields.rest, false, solidus)
         == out + FieldsText(fields, first, solidus)
  {
  }

  method WriteFields(h: ObjectHandle, fields: Fields)
    requires h.attached && !h.context.closed && h.context.View().Top(h.token)
    modifies h, h.context
    ensures h.View() == old(h.View()).(hasElement := old(h.hasElement) || fields.Field?)
    ensures Grown(old(h.context.View()), h.context.View(),
                  FieldsText(fields, !old(h.hasElement), h.context.solidus))
    decreases fields, 0
  {
    if fields.Field? {
      ghost var c, first := h.context.View(), !h.hasElement;
      ghost var start := Start(h.View(), fields.key, c.solidus);
      WriteField(h, fields.key, fields.value);
      WriteFields(h, fields.rest);
      FieldFirst(c.out, start, fields, first, c.solidus);
    }
  }

  /** The root array of a document, opened, written and closed. */
  method WriteRootArray(w: Writer, items: Items)
    requires !w.populated && w.context.View() == Ctx(false, "", [w.token], 1, true)
    modifies w, w.context
    ensures w.context.out == Text(Arr(items), old(w.solidus))
  {
    var r := w.WriteArray();
    var root := r.value;
    WriteItems(root, items);
    var e := root.Close();
    assert "" + "[" == "[";
  }

  /** The same for an object. */
  method WriteRootObject(w: Writer, fields: Fields)
    requires !w.populated && w.context.View() == Ctx(false, "", [w.token], 1, true)
    modifies w, w.context
    ensures w.context.out == Text(Obj(fields), old(w.solidus))
  {
    var r := w.WriteObject();
    var root := r.value;
    WriteFields(root, fields);
    var e := root.Close();
    assert "" + "{" == "{";
  }

  /** A document from a new writer: its text is that of the value, and reads back as the value. */
  method WriteDocument(j: Json, solidus: bool) returns (text: string)
    requires !Scalar(j)
    ensures text == Text(j, solidus)
    ensures Parse(text, false) == Some(j)
    ensures Parse(text, true) == if Clean(j) then Some(j) else None
  {
    var w := new Writer();
    w.solidus := solidus;
    if j.Arr? { WriteRootArray(w, j.items); } else { WriteRootObject(w, j.fields); }
    w.Close();
    text := w.context.out;
    TextRoundTrip(j, solidus);
  }
}
