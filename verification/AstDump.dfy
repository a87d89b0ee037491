/** The fixed printout of syntax trees: absent, empty-list and defaulted fields are left out,
    and otherwise the printout determines the tree. */
module AstDump {
  import opened ByteStrings

  /** A literal as its `repr`; different literals have different ones. */
  datatype Literal = NoneLiteral | Repr(text: string)

  /** A node lists its fields in the order of its class; `None` is an absent attribute. */
  datatype Value = Node(cls: string, slots: seq<Option<Value>>) | List(items: seq<Value>) | Leaf(literal: Literal)

  /** A field of a class, and whether the class gives it the default `None`. */
  datatype Field = Field(name: string, defaultsToNone: bool)

  type Schema = string -> seq<Field>

  /** Field names are distinct, and the value of a constant is required. */
  ghost predicate IsSchema(schema: Schema) {
    (forall cls, i, j :: 0 <= i < j < |schema(cls)| ==> schema(cls)[i].name != schema(cls)[j].name)
    && forall i :: 0 <= i < |schema("Constant")| && schema("Constant")[i].name == "value" ==> !schema("Constant")[i].defaultsToNone
  }

  /** Every node has the fields of its class. */
  predicate Conforms(schema: Schema, v: Value) {
    match v
    case Leaf(_) => true
    case List(items) => forall i :: 0 <= i < |items| ==> Conforms(schema, items[i])
    case Node(cls, slots) =>
      |slots| == |schema(cls)| && forall i :: 0 <= i < |slots| && slots[i].Some? ==> Conforms(schema, slots[i].value)
  }

  // ------------------------------------------------------------- printing

  datatype Token = Name(text: string) | Open | Close | Comma | Equals | OpenList | CloseList | Literally(literal: Literal)

  /** A field that is not printed: absent, an empty list unless it is the value of a constant,
      or `None` where that is the default. */
  predicate IsDropped(cls: string, field: Field, slot: Option<Value>) {
    slot.None?
    || (slot.value == List([]) && !(cls == "Constant" && field.name == "value"))
    || (slot.value == Leaf(NoneLiteral) && field.defaultsToNone)
  }

  /** `separator.join`. */
  function Join(parts: seq<seq<Token>>): seq<Token> {
    if parts == [] then []
    else if |parts| == 1 then parts[0]
    else parts[0] + [Comma] + Join(parts[1..])
  }

  function Format(schema: Schema, v: Value): seq<Token>
    requires Conforms(schema, v)
    decreases v, 0
  {
    match v
    case Leaf(literal) => [Literally(literal)]
    case List(items) => [OpenList] + Join(FormatItems(schema, items, |items|)) + [CloseList]
    case Node(cls, slots) => [Name(cls), Open] + Join(FormatSlots(schema, v, |slots|)) + [Close]
  }

  function FormatItems(schema: Schema, items: seq<Value>, n: nat): seq<seq<Token>>
    requires n <= |items| && forall i :: 0 <= i < |items| ==> Conforms(schema, items[i])
    decreases items, n
  {
    if n == 0 then [] else FormatItems(schema, items, n - 1) + [Format(schema, items[n - 1])]
  }

  /** The printed fields among the first `n` of a node. */
  function FormatSlots(schema: Schema, v: Value, n: nat): seq<seq<Token>>
    requires v.Node? && Conforms(schema, v) && n <= |v.slots|
    decreases v.slots, n
  {
    if n == 0 then []
    else
      var before, field, slot := FormatSlots(schema, v, n - 1), schema(v.cls)[n - 1], v.slots[n - 1];
      if IsDropped(v.cls, field, slot) then before
      else before + [[Name(field.name), Equals] + Format(schema, slot.value)]
  }

  /** The printer, with its list of fields. */
  method FormatValue(schema: Schema, v: Value) returns (text: seq<Token>)
    requires Conforms(schema, v)
    ensures text == Format(schema, v)
    decreases v
  {
    match v
    case Leaf(literal) =>
      text := [Literally(literal)];
    case List(items) =>
      var parts := [];
      for n := 0 to |items|
        invariant parts == FormatItems(schema, items, n)
      {
        var part := FormatValue(schema, items[n]);
        parts := parts + [part];
      }
      text := [OpenList] + Join(parts) + [CloseList];
    case Node(cls, slots) =>
      var fields := [];
      for n := 0 to |slots|
        invariant fields == FormatSlots(schema, v, n)
      {
        if IsDropped(cls, schema(cls)[n], slots[n]) {
          continue;
        }
        var part := FormatValue(schema, slots[n].value);
        fields := fields + [[Name(schema(cls)[n].name), Equals] + part];
      }
      text := [Name(cls), Open] + Join(fields) + [Close];
  }

  // ------------------------------------------------------------ equivalence

  /** The same tree up to the fields that are not printed. */
  ghost predicate Equivalent(schema: Schema, a: Value, b: Value)
    requires Conforms(schema, a) && Conforms(schema, b)
    decreases a, 1
  {
    match (a, b)
    case (Leaf(x), Leaf(y)) => x == y
    case (List(x), List(y)) => |x| == |y| && forall i :: 0 <= i < |x| ==> Equivalent(schema, x[i], y[i])
    case (Node(c, x), Node(d, _)) => c == d && forall i :: 0 <= i < |x| ==> SlotsEquivalent(schema, a, b, i)
    case _ => false
  }

  /** Field `i` of two nodes of one class says nothing in either, or the equivalent in both. */
  ghost predicate SlotsEquivalent(schema: Schema, a: Value, b: Value, i: nat)
    requires a.Node? && b.Node? && a.cls == b.cls && Conforms(schema, a) && Conforms(schema, b) && i < |a.slots|
    decreases a, 0
  {
    var field := schema(a.cls)[i];
    if SaysNothing(a.cls, field, a.slots[i]) || SaysNothing(a.cls, field, b.slots[i]) then
      SaysNothing(a.cls, field, a.slots[i]) && SaysNothing(a.cls, field, b.slots[i])
    else
      Equivalent(schema, a.slots[i].value, b.slots[i].value)
  }

  /** What a field can hold without saying anything: no value at all; an empty list, except as
      the value of a constant; and `None` where the class would supply that. */
  predicate SaysNothing(cls: string, field: Field, slot: Option<Value>) {
    match slot
    case None => true
    case Some(List(items)) => |items| == 0 && (field.name == "value" ==> cls != "Constant")
    case Some(Leaf(NoneLiteral)) => field.defaultsToNone
    case _ => false
  }

  lemma SilentIsDropped(cls: string, field: Field, slot: Option<Value>)
    ensures SaysNothing(cls, field, slot) <==> IsDropped(cls, field, slot)
  {
  }

  /** The tree without the fields that are not printed. */
  function Normal(schema: Schema, v: Value): (n: Value)
    requires Conforms(schema, v)
    ensures Conforms(schema, n)
    decreases v
  {
    match v
    case Leaf(_) => v
    case List(items) => List(seq(|items|, i requires 0 <= i < |items| => Normal(schema, items[i])))
    case Node(cls, slots) =>
      Node(cls, seq(|slots|, i requires 0 <= i < |slots| =>
        if IsDropped(cls, schema(cls)[i], slots[i]) then None else Some(Normal(schema, slots[i].value))))
  }

  // ---------------------------------------------------------------- parsing

  /** What a parser returns: the value read and the tokens left over. */
  type Parsed<T> = Option<(T, seq<Token>)>

  /** The slots of a class filled by field name. */
  function Filled(fields: seq<Field>, pairs: seq<(string, Value)>): (slots: seq<Option<Value>>)
    ensures |slots| == |fields| && forall i :: 0 <= i < |fields| ==> slots[i] == Find(pairs, fields[i].name)
  {
    seq(|fields|, i requires 0 <= i < |fields| => Find(pairs, fields[i].name))
  }

  function Find(pairs: seq<(string, Value)>, name: string): Option<Value> {
    if pairs == [] then None
    else if pairs[0].0 == name then Some(pairs[0].1)
    else Find(pairs[1..], name)
  }

  function ParseValue(schema: Schema, t: seq<Token>): (r: Parsed<Value>)
    ensures r.Some? ==> |r.value.1| < |t|
    decreases |t|, 0
  {
    if t == [] then None
    else match t[0]
      case Literally(literal) => Some((Leaf(literal), t[1..]))
      case OpenList =>
        var items := ParseItems(schema, t[1..], false);
        if items.None? then None else Some((List(items.value.0), items.value.1))
      case Name(cls) =>
        if |t| < 2 || t[1] != Open then None
        else
          var pairs := ParseFields(schema, t[2..], false);
          if pairs.None? then None else Some((Node(cls, Filled(schema(cls), pairs.value.0)), pairs.value.1))
      case _ => None
  }

  /** Values with commas between them, up to the end of the list; after a comma one must come. */
  function ParseItems(schema: Schema, t: seq<Token>, more: bool): (r: Parsed<seq<Value>>)
    ensures r.Some? ==> |r.value.1| < |t|
    decreases |t|, 1
  {
    if !more && t != [] && t[0] == CloseList then Some(([], t[1..]))
    else
      var first := ParseValue(schema, t);
      if first.None? || first.value.1 == [] then None
      else
        var next := first.value.1;
        if next[0] == CloseList then Some(([first.value.0], next[1..]))
        else if next[0] != Comma then None
        else
          var others := ParseItems(schema, next[1..], true);
          if others.None? then None else Some(([first.value.0] + others.value.0, others.value.1))
  }

  /** The same for `name=value` and the end of a node. */
  function ParseFields(schema: Schema, t: seq<Token>, more: bool): (r: Parsed<seq<(string, Value)>>)
    ensures r.Some? ==> |r.value.1| < |t|
    decreases |t|, 1
  {
    if !more && t != [] && t[0] == Close then Some(([], t[1..]))
    else if |t| < 2 || !t[0].Name? || t[1] != Equals then None
    else
      var first := ParseValue(schema, t[2..]);
      if first.None? || first.value.1 == [] then None
      else
        var pair, next := (t[0].text, first.value.0), first.value.1;
        if next[0] == Close then Some(([pair], next[1..]))
        else if next[0] != Comma then None
        else
          var others := ParseFields(schema, next[1..], true);
          if others.None? then None else Some(([pair] + others.value.0, others.value.1))
  }

  // ------------------------------------------------------------- round trip

  /** Wherever the text stands, it is read as the value. */
  ghost predicate Reads(schema: Schema, text: seq<Token>, value: Value) {
    forall rest :: ParseValue(schema, text + rest) == Some((value, rest))
  }

  ghost predicate ReadAll(schema: Schema, parts: seq<seq<Token>>, values: seq<Value>) {
    |parts| == |values| && forall i :: 0 <= i < |parts| ==> Reads(schema, parts[i], values[i])
  }

  lemma {:induction false} ItemsRead(schema: Schema, parts: seq<seq<Token>>, values: seq<Value>,
                                     rest: seq<Token>, more: bool)
    requires ReadAll(schema, parts, values) && (more ==> parts != [])
    ensures ParseItems(schema, Join(parts) + [CloseList] + rest, more) == Some((values, rest))
    decreases |parts|
  {
    hide ParseValue, Reads;
    var t := Join(parts) + [CloseList] + rest;
    if parts == [] {
      assert t[1..] == rest;
    } else {
      var tail := Join(parts[1..]) + [CloseList] + rest;
      var next := if |parts| == 1 then [CloseList] + rest else [Comma] + tail;
      assert t == parts[0] + next;
      FirstRead(schema, parts[0], values[0], next);
      assert values == [values[0]] + values[1..];
      assert |parts| == 1 ==> values == [values[0]];
      assert next[1..] == if |parts| == 1 then rest else tail;
      if |parts| > 1 {
        ItemsRead(schema, parts[1..], values[1..], rest, true);
      }
    }
  }

  /** A text that is read as a value does not begin with a closing token. */
  lemma FirstRead(schema: Schema, text: seq<Token>, value: Value, next: seq<Token>)
    requires Reads(schema, text, value)
    ensures ParseValue(schema, text + next) == Some((value, next))
    ensures text + next != [] && (text + next)[0] != CloseList
  {
    assert ParseValue(schema, text + next) == Some((value, next));
  }

  ghost predicate FieldsRead(schema: Schema, parts: seq<seq<Token>>, pairs: seq<(string, Value)>) {
    |parts| == |pairs|
    && forall i :: 0 <= i < |parts| ==>
         |parts[i]| >= 2 && parts[i][..2] == [Name(pairs[i].0), Equals] && Reads(schema, parts[i][2..], pairs[i].1)
  }

  lemma {:induction false} PairsRead(schema: Schema, parts: seq<seq<Token>>, pairs: seq<(string, Value)>,
                                     rest: seq<Token>, more: bool)
    requires FieldsRead(schema, parts, pairs) && (more ==> parts != [])
    ensures ParseFields(schema, Join(parts) + [Close] + rest, more) == Some((pairs, rest))
    decreases |parts|
  {
    hide ParseValue, Reads;
    var t := Join(parts) + [Close] + rest;
    if parts == [] {
      assert t[0] == Close && t[1..] == rest;
    } else {
      var tail := Join(parts[1..]) + [Close] + rest;
      var next := if |parts| == 1 then [Close] + rest else [Comma] + tail;
      assert t == parts[0] + next;
      assert t[0] == parts[0][..2][0] && t[1] == parts[0][..2][1] && t[2..] == parts[0][2..] + next;
      FirstRead(schema, parts[0][2..], pairs[0].1, next);
      assert pairs == [pairs[0]] + pairs[1..];
      assert |parts| == 1 ==> pairs == [pairs[0]];
      assert next[1..] == if |parts| == 1 then rest else tail;
      if |parts| > 1 {
        PairsRead(schema, parts[1..], pairs[1..], rest, true);
      }
    }
  }

  /** The printed fields among the first `n`, with their normal values. */
  function Pairs(schema: Schema, v: Value, n: nat): seq<(string, Value)>
    requires v.Node? && Conforms(schema, v) && n <= |v.slots|
  {
    if n == 0 then []
    else
      var before, field, slot := Pairs(schema, v, n - 1), schema(v.cls)[n - 1], v.slots[n - 1];
      if IsDropped(v.cls, field, slot) then before else before + [(field.name, Normal(schema, slot.value))]
  }

  lemma {:induction false} FindLast(pairs: seq<(string, Value)>, pair: (string, Value), name: string)
    ensures Find(pairs + [pair], name)
         == if Find(pairs, name).Some? then Find(pairs, name) else if pair.0 == name then Some(pair.1) else None
    decreases |pairs|
  {
    if pairs == [] {
      assert pairs + [pair] == [pair] && [pair][1..] == [];
    } else {
      assert (pairs + [pair])[1..] == pairs[1..] + [pair];
      FindLast(pairs[1..], pair, name);
    }
  }

  lemma NothingFound(name: string)
    ensures Find([], name) == None
  {
  }

  /** Each slot finds its own pair again. */
  lemma {:induction false} PairsFill(schema: Schema, v: Value, n: nat, i: nat)
    requires IsSchema(schema) && v.Node? && Conforms(schema, v) && n <= |v.slots| && i < |v.slots|
    ensures Find(Pairs(schema, v, n), schema(v.cls)[i].name)
         == if i >= n || IsDropped(v.cls, schema(v.cls)[i], v.slots[i]) then None else Some(Normal(schema, v.slots[i].value))
    decreases n
  {
    hide Find;
    var fields := schema(v.cls);
    if n == 0 {
      NothingFound(fields[i].name);
    } else {
      PairsFill(schema, v, n - 1, i);
      assert i != n - 1 ==> fields[i].name != fields[n - 1].name;
      if !IsDropped(v.cls, fields[n - 1], v.slots[n - 1]) {
        FindLast(Pairs(schema, v, n - 1), (fields[n - 1].name, Normal(schema, v.slots[n - 1].value)), fields[i].name);
      }
    }
  }

  lemma {:induction false} SlotsFilled(schema: Schema, v: Value)
    requires IsSchema(schema) && v.Node? && Conforms(schema, v)
    ensures Node(v.cls, Filled(schema(v.cls), Pairs(schema, v, |v.slots|))) == Normal(schema, v)
  {
    hide Find, IsDropped, IsSchema, Pairs;
    var slots := Filled(schema(v.cls), Pairs(schema, v, |v.slots|));
    forall i | 0 <= i < |v.slots| ensures slots[i] == Normal(schema, v).slots[i] {
      PairsFill(schema, v, |v.slots|, i);
    }
    assert slots == Normal(schema, v).slots;
  }

  /** Parsing a printout gives back the tree without the fields that are not printed. */
  lemma {:induction false} FormatReads(schema: Schema, v: Value)
    requires IsSchema(schema) && Conforms(schema, v)
    ensures Reads(schema, Format(schema, v), Normal(schema, v))
    decreases v, 0
  {
    hide ParseItems, ParseFields, Join, FormatItems, FormatSlots, Filled, Pairs;
    match v
    case Leaf(literal) =>
      forall rest ensures ParseValue(schema, Format(schema, v) + rest) == Some((v, rest)) {
        assert ([Literally(literal)] + rest)[1..] == rest;
      }
    case List(items) =>
      var parts, values := FormatItems(schema, items, |items|), Normal(schema, v).items;
      FormatItemsRead(schema, items, |items|);
      assert values[..|items|] == values;
      forall rest ensures ParseValue(schema, Format(schema, v) + rest) == Some((Normal(schema, v), rest)) {
        ItemsRead(schema, parts, values, rest, false);
        var t := Format(schema, v) + rest;
        assert t[0] == OpenList && t[1..] == Join(parts) + [CloseList] + rest;
      }
    case Node(cls, slots) =>
      var parts, pairs := FormatSlots(schema, v, |slots|), Pairs(schema, v, |slots|);
      FormatSlotsRead(schema, v, |slots|);
      SlotsFilled(schema, v);
      forall rest ensures ParseValue(schema, Format(schema, v) + rest) == Some((Normal(schema, v), rest)) {
        PairsRead(schema, parts, pairs, rest, false);
        var t := Format(schema, v) + rest;
        assert t[0] == Name(cls) && t[1] == Open && t[2..] == Join(parts) + [Close] + rest;
      }
  }

  lemma {:induction false} FormatItemsRead(schema: Schema, items: seq<Value>, n: nat)
    requires IsSchema(schema) && n <= |items| && forall i :: 0 <= i < |items| ==> Conforms(schema, items[i])
    ensures ReadAll(schema, FormatItems(schema, items, n), Normal(schema, List(items)).items[..n])
    decreases items, n
  {
    hide Reads, Format, IsSchema;
    if n > 0 {
      FormatItemsRead(schema, items, n - 1);
      FormatReads(schema, items[n - 1]);
    }
  }

  lemma {:induction false} FormatSlotsRead(schema: Schema, v: Value, n: nat)
    requires IsSchema(schema) && v.Node? && Conforms(schema, v) && n <= |v.slots|
    ensures FieldsRead(schema, FormatSlots(schema, v, n), Pairs(schema, v, n))
    decreases v.slots, n
  {
    hide Reads, Format, IsSchema;
    if n > 0 {
      FormatSlotsRead(schema, v, n - 1);
      var field, slot := schema(v.cls)[n - 1], v.slots[n - 1];
      if !IsDropped(v.cls, field, slot) {
        FormatReads(schema, slot.value);
        var part := [Name(field.name), Equals] + Format(schema, slot.value);
        assert part[..2] == [Name(field.name), Equals] && part[2..] == Format(schema, slot.value);
      }
    }
  }

  // --------------------------------------------------------------- theorems

  /** Equivalent trees are those with the same normal form. */
  lemma {:induction false} EquivalentIsNormal(schema: Schema, a: Value, b: Value)
    requires Conforms(schema, a) && Conforms(schema, b)
    ensures Equivalent(schema, a, b) <==> Normal(schema, a) == Normal(schema, b)
    decreases a
  {
    var m, n := Normal(schema, a), Normal(schema, b);
    if a.List? && b.List? && |a.items| == |b.items| {
      forall i | 0 <= i < |a.items| ensures Equivalent(schema, a.items[i], b.items[i]) <==> m.items[i] == n.items[i] {
        EquivalentIsNormal(schema, a.items[i], b.items[i]);
      }
    }
    if a.Node? && b.Node? && a.cls == b.cls {
      forall i | 0 <= i < |a.slots|
        ensures SlotsEquivalent(schema, a, b, i) <==> m.slots[i] == n.slots[i]
      {
        SilentIsDropped(a.cls, schema(a.cls)[i], a.slots[i]);
        SilentIsDropped(a.cls, schema(a.cls)[i], b.slots[i]);
        if !IsDropped(a.cls, schema(a.cls)[i], a.slots[i]) && !IsDropped(a.cls, schema(a.cls)[i], b.slots[i]) {
          EquivalentIsNormal(schema, a.slots[i].value, b.slots[i].value);
        }
      }
    }
  }

  /** The fields that are not printed do not matter for the printout. */
  lemma {:induction false} SamePrintout(schema: Schema, v: Value)
    requires Conforms(schema, v)
    ensures Format(schema, Normal(schema, v)) == Format(schema, v)
    decreases v, 0
  {
    hide FormatItems, FormatSlots, Join;
    match v
    case Leaf(_) =>
    case List(items) => SameItems(schema, items, |items|);
    case Node(_, slots) => SameSlots(schema, v, |slots|);
  }

  lemma {:induction false} SameItems(schema: Schema, items: seq<Value>, n: nat)
    requires n <= |items| && forall i :: 0 <= i < |items| ==> Conforms(schema, items[i])
    ensures FormatItems(schema, Normal(schema, List(items)).items, n) == FormatItems(schema, items, n)
    decreases items, n
  {
    hide Format;
    if n > 0 {
      SameItems(schema, items, n - 1);
      SamePrintout(schema, items[n - 1]);
    }
  }

  lemma {:induction false} SameSlots(schema: Schema, v: Value, n: nat)
    requires v.Node? && Conforms(schema, v) && n <= |v.slots|
    ensures FormatSlots(schema, Normal(schema, v), n) == FormatSlots(schema, v, n)
    decreases v.slots, n
  {
    hide Format;
    if n > 0 {
      SameSlots(schema, v, n - 1);
      if v.slots[n - 1].Some? {
        SamePrintout(schema, v.slots[n - 1].value);
      }
    }
  }

  /** Two trees print equally if and only if they differ only in fields that are absent, empty
      lists, or `None` where that is the default. */
  lemma EqualPrintouts(schema: Schema, a: Value, b: Value)
    requires IsSchema(schema) && Conforms(schema, a) && Conforms(schema, b)
    ensures Format(schema, a) == Format(schema, b) <==> Equivalent(schema, a, b)
  {
    hide Format, Normal, Equivalent, ParseValue;
    FormatReads(schema, a);
    FormatReads(schema, b);
    EquivalentIsNormal(schema, a, b);
    SamePrintout(schema, a);
    SamePrintout(schema, b);
    assert ParseValue(schema, Format(schema, a) + []) == Some((Normal(schema, a), []));
    assert ParseValue(schema, Format(schema, b) + []) == Some((Normal(schema, b), []));
  }

  /** A constant whose value is `None` or an empty list keeps it in the printout: it does not
      print like one without a value, or with another. */
  lemma ConstantValueIsKept(schema: Schema, slots: seq<Option<Value>>, other: seq<Option<Value>>, i: nat)
    requires IsSchema(schema) && Conforms(schema, Node("Constant", slots)) && Conforms(schema, Node("Constant", other))
    requires i < |slots| && schema("Constant")[i].name == "value"
    requires slots[i] == Some(Leaf(NoneLiteral)) || slots[i] == Some(List([]))
    requires Format(schema, Node("Constant", slots)) == Format(schema, Node("Constant", other))
    ensures other[i] == slots[i]
  {
    hide Format;
    EqualPrintouts(schema, Node("Constant", slots), Node("Constant", other));
    assert !SaysNothing("Constant", schema("Constant")[i], slots[i]);
    assert SlotsEquivalent(schema, Node("Constant", slots), Node("Constant", other), i);
    assert Equivalent(schema, slots[i].value, other[i].value);
  }
}
