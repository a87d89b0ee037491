/** Which fields of a node the printout shows. */
module AstSlots {
  import opened ByteStrings
  import opened AstDump

  /** The node with field `i` absent. */
  function Cleared(v: Value, i: nat): Value
    requires v.Node? && i < |v.slots|
  {
    v.(slots := v.slots[i := None])
  }

  lemma ClearedConforms(schema: Schema, v: Value, i: nat)
    requires v.Node? && i < |v.slots| && Conforms(schema, v)
    ensures Conforms(schema, Cleared(v, i))
  {
  }

  lemma {:induction false} SameIsEquivalent(schema: Schema, v: Value)
    requires Conforms(schema, v)
    ensures Equivalent(schema, v, v)
  {
    EquivalentIsNormal(schema, v, v);
  }

  /** Taking a field away leaves the printout as it is exactly if the field was absent, an empty
      list that is not the value of a constant, or `None` where that is the class default. */
  lemma FieldIsSeen(schema: Schema, v: Value, i: nat)
    requires IsSchema(schema) && v.Node? && i < |v.slots| && Conforms(schema, v)
    ensures Conforms(schema, Cleared(v, i))
    ensures Format(schema, Cleared(v, i)) == Format(schema, v) <==>
            v.slots[i] == None
            || (v.slots[i] == Some(List([])) && !(v.cls == "Constant" && schema(v.cls)[i].name == "value"))
            || (v.slots[i] == Some(Leaf(NoneLiteral)) && schema(v.cls)[i].defaultsToNone)
  {
    hide Format, Equivalent, IsSchema;
    ClearedConforms(schema, v, i);
    EqualPrintouts(schema, Cleared(v, i), v);
    SlotsDecide(schema, v, i);
  }

  lemma SlotsDecide(schema: Schema, v: Value, i: nat)
    requires v.Node? && i < |v.slots| && Conforms(schema, v) && Conforms(schema, Cleared(v, i))
    ensures Equivalent(schema, Cleared(v, i), v) <==> SaysNothing(v.cls, schema(v.cls)[i], v.slots[i])
  {
    var w := Cleared(v, i);
    assert w.slots[i] == None;
    forall j | 0 <= j < |v.slots| && j != i ensures SlotsEquivalent(schema, w, v, j) {
      assert w.slots[j] == v.slots[j];
      if v.slots[j].Some? {
        SameIsEquivalent(schema, v.slots[j].value);
      }
    }
    assert SlotsEquivalent(schema, w, v, i) <==> SaysNothing(v.cls, schema(v.cls)[i], v.slots[i]);
  }

  // ------------------------------------------------------------ the printout

  /** The fields from `i` on that say something, as `name=value` and in the order of the class;
      with a comma before each but the first of the node. */
  function FieldsText(schema: Schema, v: Value, i: nat, more: bool): seq<Token>
    requires v.Node? && i <= |v.slots| && Conforms(schema, v)
    decreases |v.slots| - i
  {
    if i == |v.slots| then []
    else if SaysNothing(v.cls, schema(v.cls)[i], v.slots[i]) then FieldsText(schema, v, i + 1, more)
    else
      (if more then [Comma] else []) + [Name(schema(v.cls)[i].name), Equals] + Format(schema, v.slots[i].value)
      + FieldsText(schema, v, i + 1, true)
  }

  /** The same for the items of a list. */
  function ItemsText(schema: Schema, items: seq<Value>, i: nat): seq<Token>
    requires i <= |items| && forall k :: 0 <= k < |items| ==> Conforms(schema, items[k])
    decreases |items| - i
  {
    if i == |items| then []
    else (if i > 0 then [Comma] else []) + Format(schema, items[i]) + ItemsText(schema, items, i + 1)
  }

  lemma {:induction false} JoinOneMore(parts: seq<seq<Token>>, part: seq<Token>)
    ensures Join(parts + [part]) == Join(parts) + (if parts == [] then [] else [Comma]) + part
    decreases |parts|
  {
    if parts == [] {
      assert [] + [part] == [part];
    } else {
      assert (parts + [part])[1..] == parts[1..] + [part];
      JoinOneMore(parts[1..], part);
      assert |parts| == 1 ==> parts[1..] == [] && Join(parts[1..] + [part]) == part;
    }
  }

  lemma {:induction false} FieldsFrom(schema: Schema, v: Value, i: nat)
    requires v.Node? && i <= |v.slots| && Conforms(schema, v)
    ensures Join(FormatSlots(schema, v, |v.slots|))
         == Join(FormatSlots(schema, v, i)) + FieldsText(schema, v, i, FormatSlots(schema, v, i) != [])
    decreases |v.slots| - i
  {
    hide Format, Join, IsDropped, SaysNothing;
    if i < |v.slots| {
      var before, field, slot := FormatSlots(schema, v, i), schema(v.cls)[i], v.slots[i];
      SilentIsDropped(v.cls, field, slot);
      AbsentSaysNothing(v.cls, field);
      FieldsFrom(schema, v, i + 1);
      if !SaysNothing(v.cls, field, slot) {
        var part := [Name(field.name), Equals] + Format(schema, slot.value);
        var rest := FieldsText(schema, v, i + 1, true);
        JoinOneMore(before, part);
        assert before + [part] != [];
        Regroup(Join(before), if before == [] then [] else [Comma], [Name(field.name), Equals], Format(schema, slot.value), rest);
      }
    } else {
      assert Join(FormatSlots(schema, v, i)) + [] == Join(FormatSlots(schema, v, i));
    }
  }

  lemma AbsentSaysNothing(cls: string, field: Field)
    ensures SaysNothing(cls, field, None)
  {
  }

  lemma Regroup(a: seq<Token>, b: seq<Token>, c: seq<Token>, d: seq<Token>, e: seq<Token>)
    ensures (a + b + (c + d)) + e == a + (b + c + d + e)
  {
  }

  lemma {:induction false} ItemsFrom(schema: Schema, items: seq<Value>, i: nat)
    requires i <= |items| && forall k :: 0 <= k < |items| ==> Conforms(schema, items[k])
    ensures Join(FormatItems(schema, items, |items|)) == Join(FormatItems(schema, items, i)) + ItemsText(schema, items, i)
    decreases |items| - i
  {
    hide Format, Join, FormatItems;
    if i < |items| {
      ItemsFrom(schema, items, i + 1);
      ItemsStep(schema, items, i);
      RegroupItems(Join(FormatItems(schema, items, i)), if i == 0 then [] else [Comma], Format(schema, items[i]),
                   ItemsText(schema, items, i + 1));
    } else {
      assert Join(FormatItems(schema, items, i)) + [] == Join(FormatItems(schema, items, i));
    }
  }

  lemma RegroupItems(a: seq<Token>, b: seq<Token>, c: seq<Token>, d: seq<Token>)
    ensures (a + b + c) + d == a + (b + c + d)
  {
  }

  lemma ItemsStep(schema: Schema, items: seq<Value>, i: nat)
    requires i < |items| && forall k :: 0 <= k < |items| ==> Conforms(schema, items[k])
    ensures Join(FormatItems(schema, items, i + 1))
         == Join(FormatItems(schema, items, i)) + (if i == 0 then [] else [Comma]) + Format(schema, items[i])
  {
    hide Format, Join;
    ItemsCount(schema, items, i);
    JoinOneMore(FormatItems(schema, items, i), Format(schema, items[i]));
  }

  lemma {:induction false} ItemsCount(schema: Schema, items: seq<Value>, n: nat)
    requires n <= |items| && forall k :: 0 <= k < |items| ==> Conforms(schema, items[k])
    ensures |FormatItems(schema, items, n)| == n
    decreases n
  {
    hide Format;
    if n > 0 {
      ItemsCount(schema, items, n - 1);
    }
  }

  lemma NothingJoined()
    ensures Join([]) == []
  {
  }

  /** A printout is the class and, in parentheses, the fields that say something; or the items in
      brackets; or the literal. */
  lemma PrintoutIs(schema: Schema, v: Value)
    requires Conforms(schema, v)
    ensures Format(schema, v)
         == match v
            case Node(cls, _) => [Name(cls), Open] + FieldsText(schema, v, 0, false) + [Close]
            case List(items) => [OpenList] + ItemsText(schema, items, 0) + [CloseList]
            case Leaf(literal) => [Literally(literal)]
  {
    hide Join, FieldsText, ItemsText;
    NothingJoined();
    match v
    case Node(cls, slots) =>
      FieldsFrom(schema, v, 0);
      assert [] + FieldsText(schema, v, 0, false) == FieldsText(schema, v, 0, false);
    case List(items) =>
      ItemsFrom(schema, items, 0);
      assert [] + ItemsText(schema, items, 0) == ItemsText(schema, items, 0);
    case Leaf(_) =>
  }

  // ---------------------------------------------------------------- examples

  /** A module has a body and ignored types, and `pass` has no fields. */
  ghost predicate HasModules(schema: Schema) {
    schema("Module") == [Field("body", false), Field("type_ignores", false)] && schema("Pass") == []
  }

  /** The empty module prints as `Module()`, one with a statement as `Module(body=[Pass()])`. */
  lemma ModuleExample(schema: Schema)
    requires HasModules(schema)
    ensures
      var empty, one := Node("Module", [Some(List([])), Some(List([]))]), Node("Module", [Some(List([Node("Pass", [])])), Some(List([]))]);
      Conforms(schema, empty) && Conforms(schema, one)
      && Format(schema, empty) == [Name("Module"), Open, Close]
      && Format(schema, one) == [Name("Module"), Open, Name("body"), Equals, OpenList, Name("Pass"), Open, Close, CloseList, Close]
  {
    hide Format, FieldsText, ItemsText, Conforms;
    var pass := Node("Pass", []);
    var body := List([pass]);
    var empty, one := Node("Module", [Some(List([])), Some(List([]))]), Node("Module", [Some(body), Some(List([]))]);
    ExampleConforms(schema, pass, body);
    PrintoutIs(schema, empty);
    PrintoutIs(schema, one);
    PrintoutIs(schema, body);
    PrintoutIs(schema, pass);
    FieldsEnd(schema, pass, false);
    FieldsEnd(schema, empty, false);
    FieldsEnd(schema, one, true);
    FieldSkipped(schema, empty, 0, false);
    FieldSkipped(schema, empty, 1, false);
    FieldSkipped(schema, one, 1, true);
    FieldShown(schema, one, 0);
    OneItem(schema, pass);
  }

  lemma {:induction false} ExampleConforms(schema: Schema, pass: Value, body: Value)
    requires HasModules(schema) && pass == Node("Pass", []) && body == List([pass])
    ensures Conforms(schema, pass) && Conforms(schema, body) && (forall k :: 0 <= k < |[pass]| ==> Conforms(schema, [pass][k]))
    ensures Conforms(schema, Node("Module", [Some(List([])), Some(List([]))]))
    ensures Conforms(schema, Node("Module", [Some(body), Some(List([]))]))
  {
    assert Conforms(schema, List([]));
  }

  lemma FieldsEnd(schema: Schema, v: Value, more: bool)
    requires v.Node? && Conforms(schema, v)
    ensures FieldsText(schema, v, |v.slots|, more) == []
  {
    hide Conforms;
  }

  lemma FieldSkipped(schema: Schema, v: Value, i: nat, more: bool)
    requires v.Node? && Conforms(schema, v) && i < |v.slots| && SaysNothing(v.cls, schema(v.cls)[i], v.slots[i])
    ensures FieldsText(schema, v, i, more) == FieldsText(schema, v, i + 1, more)
  {
    hide Conforms;
  }

  lemma FieldShown(schema: Schema, v: Value, i: nat)
    requires v.Node? && Conforms(schema, v) && i < |v.slots| && !SaysNothing(v.cls, schema(v.cls)[i], v.slots[i])
    ensures v.slots[i].Some? && Conforms(schema, v.slots[i].value)
    ensures FieldsText(schema, v, i, false)
         == [Name(schema(v.cls)[i].name), Equals] + Format(schema, v.slots[i].value) + FieldsText(schema, v, i + 1, true)
  {
    hide Format;
  }

  lemma OneItem(schema: Schema, v: Value)
    requires forall k :: 0 <= k < |[v]| ==> Conforms(schema, [v][k])
    ensures Conforms(schema, v) && ItemsText(schema, [v], 0) == Format(schema, v)
  {
    hide Format;
    assert [v][0] == v;
    assert ItemsText(schema, [v], 1) == [];
  }
}
