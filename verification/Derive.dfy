/** The derive as a compiler: from one plan of a struct's fields come a writer, a reader and a
    schema, which agree for every plan that is not refused. */
module Derive {
  import opened Texts
  import opened Wire

  /** How values of a type are written and read: its own conversions, those of a module the
      field names, or its text. */
  datatype Conv<!V> = Conv(to: V -> Tree, from: Tree -> Option<V>)

  datatype TextConv<!V> = TextConv(show: V -> Text, parse: Text -> Option<V>)

  /** What a field's declaration says; type is its type's own conversion, of the T of an
      Option<T> when it is optional. fallback is the type's Default. */
  datatype Field<!V> = Field(
    name: Text,
    rename: Option<Text>,
    optional: bool,
    skip: bool,
    default: Option<V>,
    schemaDefault: bool,
    flatten: bool,
    skipIf: Option<Value<V> -> bool>,
    with: Option<Conv<V>>,
    asText: bool,
    own: Conv<V>,
    text: TextConv<V>,
    fallback: Value<V>)

  /** A field's value: plain, or an Option's. */
  datatype Value<V> = Plain(v: V) | Nothing | Just(v: V)

  /** What reading the attributes of one field refuses, in the order it is found. */
  datatype Refusal =
    | FlattenStandsAlone
    | FlattenOfOption
    | TextAndWith
    | WithOnOption
    | SkipIfWithoutDefault
    | SkipAndRename
    | SkipAndDefault
    | DefaultOnOption
    | TwoDefaults

  function Refused<V>(f: Field<V>): Option<Refusal> {
    if f.flatten && (f.skip || f.rename.Some? || f.default.Some? || f.with.Some? || f.asText || f.skipIf.Some?)
      then Some(FlattenStandsAlone)
    else if f.flatten && f.optional then Some(FlattenOfOption)
    else if f.asText && f.with.Some? then Some(TextAndWith)
    else if f.with.Some? && f.optional then Some(WithOnOption)
    else if f.skipIf.Some? && f.default.None? && !f.optional then Some(SkipIfWithoutDefault)
    else if f.skip && f.rename.Some? then Some(SkipAndRename)
    else if f.default.Some? && f.skip then Some(SkipAndDefault)
    else if f.default.Some? && f.optional then Some(DefaultOnOption)
    else if f.default.Some? && f.schemaDefault then Some(TwoDefaults)
    else None
  }

  /** The declarations that are accepted: a flattened field says nothing more and is no Option, one
      conversion at most and none in place of an Option's, a skipped field has no key and no
      default, a default is given once and never for an Option, and what may be left out has
      something to be read as. */
  lemma RefusedExactly<V>(f: Field<V>)
    ensures Refused(f).None?
      <==>
      && (f.flatten ==>
            && !f.skip && f.rename.None? && f.default.None? && f.with.None? && !f.asText && f.skipIf.None?
            && !f.optional)
      && !(f.asText && f.with.Some?) && !(f.with.Some? && f.optional)
      && (f.skipIf.Some? ==> f.default.Some? || f.optional)
      && (f.skip ==> f.rename.None? && f.default.None?)
      && (f.default.Some? ==> !f.optional && !f.schemaDefault)
  {
  }

  /** The key a field is stored under: the one it names, else what the struct's rule makes of
      its name. */
  function KeyOf<V>(f: Field<V>, rule: Text -> Text): Text {
    if f.rename.Some? then f.rename.value else rule(f.name)
  }

  predicate Keyed<V>(f: Field<V>) {
    !f.skip && !f.flatten
  }

  ghost predicate DistinctFieldKeys<V>(plan: seq<Field<V>>, rule: Text -> Text) {
    forall i, j :: 0 <= i < j < |plan| && Keyed(plan[i]) && Keyed(plan[j]) ==>
      KeyOf(plan[i], rule) != KeyOf(plan[j], rule)
  }

  /** Refuses two fields that land on one key. */
  method RejectDuplicateKeys<V>(plan: seq<Field<V>>, rule: Text -> Text) returns (ok: bool)
    ensures ok == DistinctFieldKeys(plan, rule)
    ensures ok <==> forall i, j
      | 0 <= i < j < |plan| && !plan[i].skip && !plan[i].flatten && !plan[j].skip && !plan[j].flatten
      :: KeyOf(plan[i], rule) != KeyOf(plan[j], rule)
  {
    for i := 0 to |plan|
      invariant DistinctFieldKeys(plan[..i], rule)
    {
      if Keyed(plan[i]) {
        for j := 0 to i
          invariant forall k :: 0 <= k < j && Keyed(plan[k]) ==> KeyOf(plan[k], rule) != KeyOf(plan[i], rule)
        {
          if Keyed(plan[j]) && KeyOf(plan[j], rule) == KeyOf(plan[i], rule) { return false; }
        }
      }
      assert plan[..i + 1] == plan[..i] + [plan[i]];
    }
    assert plan[..|plan|] == plan;
    ok := true;
  }

  /** A plan the derive compiles; a flattened field's keys are its type's, beside it. */
  ghost predicate Accepted<V>(plan: seq<Field<V>>, rule: Text -> Text) {
    && (forall i :: 0 <= i < |plan| ==> Refused(plan[i]).None? && !plan[i].flatten)
    && DistinctFieldKeys(plan, rule)
  }

  // --- maps as the generated code uses them -----------------------------------------------

  function Get(held: seq<Entry>, key: Text): Option<Tree> {
    if held == [] then None
    else if held[0].key == key then Some(held[0].value)
    else Get(held[1..], key)
  }

  lemma {:induction false} GetSet(held: seq<Entry>, key: Text, value: Tree, other: Text)
    ensures Get(SetEntry(held, key, value), other) == if other == key then Some(value) else Get(held, other)
  {
    if held != [] && held[0].key != key {
      GetSet(held[1..], key, value, other);
      assert SetEntry(held, key, value)[1..] == SetEntry(held[1..], key, value);
    } else if held != [] {
      assert SetEntry(held, key, value)[1..] == held[1..];
    }
  }

  // --- the three things generated from a plan --------------------------------------------

  /** What a value of the field is stored as: through its module, its text, or its type. */
  function Stored<V>(f: Field<V>, v: V): Tree {
    if f.with.Some? then f.with.value.to(v)
    else if f.asText then Str(f.text.show(v))
    else f.own.to(v)
  }

  /** The write of one field: None omits the key, and so does skip_serializing_if. */
  function SetField<V>(f: Field<V>, key: Text, x: Value<V>, held: seq<Entry>): seq<Entry> {
    if f.skipIf.Some? && f.skipIf.value(x) then held
    else if x.Nothing? then held
    else SetEntry(held, key, Stored(f, x.v))
  }

  /** The generated writer. */
  function Write<V>(plan: seq<Field<V>>, rule: Text -> Text, x: seq<Value<V>>): seq<Entry>
    requires |x| == |plan|
  {
    WriteOnto(plan, rule, x, [])
  }

  function WriteOnto<V>(plan: seq<Field<V>>, rule: Text -> Text, x: seq<Value<V>>, held: seq<Entry>): seq<Entry>
    requires |x| == |plan|
  {
    if plan == [] then held
    else
      var last := |plan| - 1;
      var front := WriteOnto(plan[..last], rule, x[..last], held);
      if plan[last].skip then front else SetField(plan[last], KeyOf(plan[last], rule), x[last], front)
  }

  /** How a stored value is read: the way it was written. */
  function Loaded<V>(f: Field<V>, tree: Tree): Option<V> {
    if f.with.Some? then f.with.value.from(tree)
    else if f.asText then (if tree.Str? then f.text.parse(tree.text) else None)
    else f.own.from(tree)
  }

  /** The read of one field; None refuses the whole map. */
  function ReadField<V>(f: Field<V>, key: Text, held: seq<Entry>): Option<Value<V>> {
    if f.skip then Some(f.fallback)
    else
      var found := Get(held, key);
      if f.default.Some? then
        if found.None? then Some(Plain(f.default.value))
        else
          var v := Loaded(f, found.value);
          if v.Some? then Some(Plain(v.value)) else None
      else if f.optional then
        if found.None? || found.value.Null? then Some(Nothing)
        else
          var v := if f.asText then Loaded(f, found.value) else f.own.from(found.value);
          if v.Some? then Some(Just(v.value)) else None
      else if found.None? then None
      else
        var v := Loaded(f, found.value);
        if v.Some? then Some(Plain(v.value)) else None
  }

  function ReadFields<V>(plan: seq<Field<V>>, rule: Text -> Text, held: seq<Entry>): Option<seq<Value<V>>> {
    if plan == [] then Some([])
    else
      var front := ReadFields(plan[..|plan| - 1], rule, held);
      var f := plan[|plan| - 1];
      var last := ReadField(f, KeyOf(f, rule), held);
      if front.Some? && last.Some? then Some(front.value + [last.value]) else None
  }

  predicate Declares<V>(plan: seq<Field<V>>, rule: Text -> Text, key: Text) {
    exists i :: 0 <= i < |plan| && !plan[i].skip && KeyOf(plan[i], rule) == key
  }

  /** The generated reader; strict is deny_unknown_fields. */
  function Read<V>(plan: seq<Field<V>>, rule: Text -> Text, strict: bool, tree: Tree): Option<seq<Value<V>>> {
    if !tree.Map? then None
    else if strict && exists k :: 0 <= k < |tree.entries| && !Declares(plan, rule, tree.entries[k].key) then None
    else ReadFields(plan, rule, tree.entries)
  }

  /** Whether the generated schema has the field's key required. */
  predicate Required<V>(f: Field<V>) {
    !f.skip && !f.optional && f.default.None?
  }

  // --- what they promise each other --------------------------------------------------------

  /** x is a value of the field's type; an Option's may be absent. */
  predicate OfField<V>(f: Field<V>, x: Value<V>) {
    if f.optional then !x.Plain? else x.Plain?
  }

  ghost predicate OfPlan<V>(plan: seq<Field<V>>, x: seq<Value<V>>) {
    |x| == |plan| && forall i :: 0 <= i < |plan| ==> OfField(plan[i], x[i])
  }

  predicate Omits<V>(f: Field<V>, x: Value<V>) {
    f.skip || (f.skipIf.Some? && f.skipIf.value(x)) || x.Nothing?
  }

  /** What a field reads back as: skipped, its Default; left out, its default or None; an
      Option's value written as a null, None; and else what its conversion reads of what it
      wrote, None when that is refused. */
  function ReadsAs<V>(f: Field<V>, x: Value<V>): Option<Value<V>> {
    if f.skip then Some(f.fallback)
    else if Omits(f, x) then Some(if f.default.Some? then Plain(f.default.value) else Nothing)
    else if x.Just? && Stored(f, x.v).Null? then Some(Nothing)
    else
      var v := Loaded(f, Stored(f, x.v));
      if v.None? then None else Some(if x.Just? then Just(v.value) else Plain(v.value))
  }

  function AllReadAs<V>(plan: seq<Field<V>>, x: seq<Value<V>>): (r: Option<seq<Value<V>>>)
    requires |x| == |plan|
  {
    if plan == [] then Some([])
    else
      var last := |plan| - 1;
      var front, v := AllReadAs(plan[..last], x[..last]), ReadsAs(plan[last], x[last]);
      if front.Some? && v.Some? then Some(front.value + [v.value]) else None
  }

  /** A field's key holds what was written under it, or was never written. */
  lemma {:induction false} WrittenUnder<V>(plan: seq<Field<V>>, rule: Text -> Text, x: seq<Value<V>>,
        held: seq<Entry>, i: nat)
    requires Accepted(plan, rule) && |x| == |plan| && i < |plan|
    requires !plan[i].skip ==> Get(held, KeyOf(plan[i], rule)) == None
    ensures !plan[i].skip ==>
      Get(WriteOnto(plan, rule, x, held), KeyOf(plan[i], rule))
      == if Omits(plan[i], x[i]) then None else Some(Stored(plan[i], x[i].v))
  {
    var last := |plan| - 1;
    var f := plan[last];
    if !plan[i].skip {
      var front := WriteOnto(plan[..last], rule, x[..last], held);
      if i < last {
        WrittenUnder(plan[..last], rule, x[..last], held, i);
        if !f.skip && !x[last].Nothing? { GetSet(front, KeyOf(f, rule), Stored(f, x[last].v), KeyOf(plan[i], rule)); }
      } else {
        NotWritten(plan[..last], rule, x[..last], held, KeyOf(f, rule));
        if !x[last].Nothing? { GetSet(front, KeyOf(f, rule), Stored(f, x[last].v), KeyOf(f, rule)); }
      }
    }
  }

  /** A key no field writes keeps what was there. */
  lemma {:induction false} NotWritten<V>(plan: seq<Field<V>>, rule: Text -> Text, x: seq<Value<V>>, held: seq<Entry>,
        key: Text)
    requires |x| == |plan| && !Declares(plan, rule, key)
    ensures Get(WriteOnto(plan, rule, x, held), key) == Get(held, key)
  {
    if plan != [] {
      var last := |plan| - 1;
      var f := plan[last];
      assert forall i :: 0 <= i < last ==> plan[..last][i] == plan[i];
      NotWritten(plan[..last], rule, x[..last], held, key);
      var front := WriteOnto(plan[..last], rule, x[..last], held);
      if !f.skip && !x[last].Nothing? { GetSet(front, KeyOf(f, rule), Stored(f, x[last].v), key); }
    }
  }

  lemma {:induction false} FieldReadsBack<V>(f: Field<V>, key: Text, x: Value<V>, held: seq<Entry>)
    requires Refused(f).None? && !f.flatten && OfField(f, x)
    requires !f.skip ==> Get(held, key) == if Omits(f, x) then None else Some(Stored(f, x.v))
    ensures ReadField(f, key, held) == ReadsAs(f, x)
  {
  }

  lemma {:induction false} FieldsReadBack<V>(plan: seq<Field<V>>, rule: Text -> Text, x: seq<Value<V>>,
        held: seq<Entry>)
    requires Accepted(plan, rule) && OfPlan(plan, x)
    requires forall i :: 0 <= i < |plan| && !plan[i].skip ==>
      Get(held, KeyOf(plan[i], rule)) == if Omits(plan[i], x[i]) then None else Some(Stored(plan[i], x[i].v))
    ensures ReadFields(plan, rule, held) == AllReadAs(plan, x)
  {
    if plan != [] {
      var last := |plan| - 1;
      FieldsReadBack(plan[..last], rule, x[..last], held);
      FieldReadsBack(plan[last], KeyOf(plan[last], rule), x[last], held);
    }
  }

  lemma {:induction false} GetFinds(held: seq<Entry>, k: nat)
    requires k < |held|
    ensures Get(held, held[k].key).Some?
  {
    if held[0].key != held[k].key { GetFinds(held[1..], k - 1); }
  }

  /** Whatever the fields' values, and strict or not, the reader takes from what the writer
      wrote what ReadsAs says of each field, and refuses exactly when a conversion does. */
  lemma {:induction false} ReadsBack<V>(plan: seq<Field<V>>, rule: Text -> Text, x: seq<Value<V>>, strict: bool)
    requires Accepted(plan, rule) && OfPlan(plan, x)
    ensures Read(plan, rule, strict, Map(Write(plan, rule, x))) == AllReadAs(plan, x)
  {
    var written := Write(plan, rule, x);
    forall i | 0 <= i < |plan| && !plan[i].skip
      ensures Get(written, KeyOf(plan[i], rule)) == if Omits(plan[i], x[i]) then None else Some(Stored(plan[i], x[i].v))
    {
      WrittenUnder(plan, rule, x, [], i);
    }
    FieldsReadBack(plan, rule, x, written);
    forall k | 0 <= k < |written| ensures Declares(plan, rule, written[k].key) {
      GetFinds(written, k);
      if !Declares(plan, rule, written[k].key) { NotWritten(plan, rule, x, [], written[k].key); }
    }
  }

  /** A field reads back as it was: a skipped one is its Default; one left out is what the
      reader makes of no entry; a stored one is what its conversion gives back, and an
      Option's is not a null. */
  predicate Kept<V(==)>(f: Field<V>, x: Value<V>) {
    if f.skip then x == f.fallback
    else if f.skipIf.Some? && f.skipIf.value(x) then x == (if f.default.Some? then Plain(f.default.value) else Nothing)
    else if x.Nothing? then true
    else Loaded(f, Stored(f, x.v)) == Some(x.v) && (x.Just? ==> !Stored(f, x.v).Null?)
  }

  predicate AllKept<V(==)>(plan: seq<Field<V>>, x: seq<Value<V>>)
    requires |x| == |plan|
  {
    forall i :: 0 <= i < |plan| ==> Kept(plan[i], x[i])
  }

  lemma {:induction false} ReadsAsItself<V>(f: Field<V>, x: Value<V>)
    requires Refused(f).None? && !f.flatten && OfField(f, x)
    ensures ReadsAs(f, x) == Some(x) <==> Kept(f, x)
  {
  }

  lemma AllKeptStep<V>(plan: seq<Field<V>>, x: seq<Value<V>>)
    requires |x| == |plan| && plan != []
    ensures var last := |plan| - 1;
      AllKept(plan, x) <==> AllKept(plan[..last], x[..last]) && Kept(plan[last], x[last])
  {
    var last := |plan| - 1;
    if AllKept(plan[..last], x[..last]) && Kept(plan[last], x[last]) {
      forall i | 0 <= i < |plan| ensures Kept(plan[i], x[i]) {
        if i < last { assert Kept(plan[..last][i], x[..last][i]); }
      }
    }
  }

  lemma {:induction false} ReadAsThemselves<V>(plan: seq<Field<V>>, rule: Text -> Text, x: seq<Value<V>>)
    requires Accepted(plan, rule) && OfPlan(plan, x)
    ensures AllReadAs(plan, x) == Some(x) <==> AllKept(plan, x)
  {
    if plan != [] {
      hide Kept, ReadsAs, AllKept;
      var last := |plan| - 1;
      ReadAsThemselves(plan[..last], rule, x[..last]);
      ReadsAsItself(plan[last], x[last]);
      AllKeptStep(plan, x);
      AllReadLength(plan[..last], x[..last]);
      var front, v := AllReadAs(plan[..last], x[..last]), ReadsAs(plan[last], x[last]);
      if front.Some? && v.Some? {
        var all := front.value + [v.value];
        assert all[..last] == front.value && all[last] == v.value;
        assert all == x <==> front.value == x[..last] && v.value == x[last] by {
          assert x == x[..last] + [x[last]];
        }
      }
    } else {
      assert x == [];
    }
  }

  lemma {:induction false} AllReadLength<V>(plan: seq<Field<V>>, x: seq<Value<V>>)
    requires |x| == |plan|
    ensures AllReadAs(plan, x).Some? ==> |AllReadAs(plan, x).value| == |plan|
  {
    if plan != [] { AllReadLength(plan[..|plan| - 1], x[..|plan| - 1]); }
  }

  /** The whole struct comes back the same if and only if each field does. */
  lemma {:induction false} RoundTrips<V>(plan: seq<Field<V>>, rule: Text -> Text, x: seq<Value<V>>, strict: bool)
    requires Accepted(plan, rule) && OfPlan(plan, x)
    ensures Read(plan, rule, strict, Map(Write(plan, rule, x))) == Some(x) <==> AllKept(plan, x)
  {
    ReadsBack(plan, rule, x, strict);
    ReadAsThemselves(plan, rule, x);
  }

  /** What a written map has under a field's key: nothing when the field is left out, and else
      its value by the module the field names, as a text, or by its type. */
  lemma {:induction false} WritesEach<V>(plan: seq<Field<V>>, rule: Text -> Text, x: seq<Value<V>>, i: nat)
    requires Accepted(plan, rule) && OfPlan(plan, x) && i < |plan| && !plan[i].skip
    ensures var f, found := plan[i], Get(Write(plan, rule, x), KeyOf(plan[i], rule));
      if x[i].Nothing? || (f.skipIf.Some? && f.skipIf.value(x[i])) then found == None
      else
        && (f.with.Some? ==> found == Some(f.with.value.to(x[i].v)))
        && (f.asText ==> found == Some(Str(f.text.show(x[i].v))))
        && (f.with.None? && !f.asText ==> found == Some(f.own.to(x[i].v)))
  {
    WrittenUnder(plan, rule, x, [], i);
    assert Refused(plan[i]).None?;
  }

  /** Every key the schema requires is in every written map. */
  lemma {:induction false} RequiredIsWritten<V>(plan: seq<Field<V>>, rule: Text -> Text, x: seq<Value<V>>, i: nat)
    requires Accepted(plan, rule) && OfPlan(plan, x) && i < |plan| && Required(plan[i])
    ensures Get(Write(plan, rule, x), KeyOf(plan[i], rule)).Some?
  {
    WrittenUnder(plan, rule, x, [], i);
    assert OfField(plan[i], x[i]) && Refused(plan[i]).None?;
  }

  // --- a map nobody wrote ------------------------------------------------------------------

  /** The k-th entry is what held has under key. */
  predicate IsUnder(held: seq<Entry>, key: Text, k: nat) {
    k < |held| && held[k].key == key && forall j :: 0 <= j < k ==> held[j].key != key
  }

  lemma {:induction false} GetIsUnder(held: seq<Entry>, key: Text)
    ensures forall k: nat :: IsUnder(held, key, k) ==> Get(held, key) == Some(held[k].value)
    ensures Get(held, key).None? <==> forall k :: 0 <= k < |held| ==> held[k].key != key
    ensures Get(held, key).Some? ==> exists k: nat :: IsUnder(held, key, k)
    decreases |held|
  {
    if held != [] {
      var tail := held[1..];
      assert forall k :: 0 < k < |held| ==> held[k] == tail[k - 1];
      GetIsUnder(tail, key);
      if held[0].key == key {
        assert IsUnder(held, key, 0);
      } else {
        assert forall k: nat :: IsUnder(held, key, k) ==> k > 0 && IsUnder(tail, key, k - 1);
        if k: nat :| IsUnder(tail, key, k) { assert IsUnder(held, key, k + 1); }
      }
    }
  }

  /** v is what tree says of the field: read through the module the field names, as a text, or
      by its type, an Option's None from a null. */
  ghost predicate SaysOf<V>(f: Field<V>, tree: Tree, v: Value<V>) {
    if f.optional && tree.Null? then v == Nothing
    else
      && !v.Nothing? && v.Just? == f.optional
      && (f.with.Some? ==> f.with.value.from(tree) == Some(v.v))
      && (f.asText ==> tree.Str? && f.text.parse(tree.text) == Some(v.v))
      && (f.with.None? && !f.asText ==> f.own.from(tree) == Some(v.v))
  }

  /** v is what the entries say of the field, and what its declaration says where they say
      nothing of it. */
  ghost predicate FieldSays<V>(f: Field<V>, key: Text, held: seq<Entry>, v: Value<V>) {
    && (f.skip ==> v == f.fallback)
    && (!f.skip ==> forall k: nat :: IsUnder(held, key, k) ==> SaysOf(f, held[k].value, v))
    && (!f.skip && (forall k :: 0 <= k < |held| ==> held[k].key != key) ==>
          if f.default.Some? then v == Plain(f.default.value) else f.optional && v == Nothing)
  }

  lemma {:induction false} FieldReadsExactly<V>(f: Field<V>, key: Text, held: seq<Entry>, v: Value<V>)
    requires Refused(f).None?
    ensures ReadField(f, key, held) == Some(v) <==> FieldSays(f, key, held, v)
  {
    GetIsUnder(held, key);
    if k: nat :| IsUnder(held, key, k) {
      assert Get(held, key) == Some(held[k].value);
      assert FieldSays(f, key, held, v) ==> f.skip || SaysOf(f, held[k].value, v);
    }
  }

  /** The entries say x of the fields, each of its own. */
  ghost predicate AllSay<V>(plan: seq<Field<V>>, rule: Text -> Text, held: seq<Entry>, x: seq<Value<V>>) {
    |x| == |plan| && forall i :: 0 <= i < |plan| ==> FieldSays(plan[i], KeyOf(plan[i], rule), held, x[i])
  }

  lemma AllSayStep<V>(plan: seq<Field<V>>, rule: Text -> Text, held: seq<Entry>, x: seq<Value<V>>)
    requires plan != [] && |x| == |plan|
    ensures var last := |plan| - 1;
      AllSay(plan, rule, held, x)
      <==> AllSay(plan[..last], rule, held, x[..last])
           && FieldSays(plan[last], KeyOf(plan[last], rule), held, x[last])
  {
    hide FieldSays;
    forall i | 0 <= i < |plan| - 1 ensures plan[..|plan| - 1][i] == plan[i] && x[..|plan| - 1][i] == x[i] {}
  }

  lemma {:induction false} FieldsReadExactly<V>(plan: seq<Field<V>>, rule: Text -> Text, held: seq<Entry>,
        x: seq<Value<V>>)
    requires forall i :: 0 <= i < |plan| ==> Refused(plan[i]).None?
    ensures ReadFields(plan, rule, held) == Some(x) <==> AllSay(plan, rule, held, x)
  {
    if plan == [] {
    } else if |x| != |plan| {
      ReadOfEach(plan, rule, held);
    } else {
      hide AllSay, FieldSays, ReadField, Refused;
      var last := |plan| - 1;
      FieldsReadExactly(plan[..last], rule, held, x[..last]);
      FieldReadsExactly(plan[last], KeyOf(plan[last], rule), held, x[last]);
      AllSayStep(plan, rule, held, x);
      ReadOfEach(plan[..last], rule, held);
      JoinIs(ReadFields(plan[..last], rule, held), ReadField(plan[last], KeyOf(plan[last], rule), held), x);
    }
  }

  lemma JoinIs<T>(front: Option<seq<T>>, v: Option<T>, x: seq<T>)
    requires x != [] && (front.Some? ==> |front.value| == |x| - 1)
    ensures (if front.Some? && v.Some? then Some(front.value + [v.value]) else None) == Some(x)
      <==> front == Some(x[..|x| - 1]) && v == Some(x[|x| - 1])
  {
    if front.Some? && v.Some? {
      assert (front.value + [v.value])[..|x| - 1] == front.value;
      assert x == x[..|x| - 1] + [x[|x| - 1]];
    }
  }

  lemma {:induction false} ReadOfEach<V>(plan: seq<Field<V>>, rule: Text -> Text, held: seq<Entry>)
    ensures var r := ReadFields(plan, rule, held); r.Some? ==> |r.value| == |plan|
    decreases |plan|
  {
    hide ReadField;
    if plan != [] { ReadOfEach(plan[..|plan| - 1], rule, held); }
  }

  ghost predicate IsDeclared<V>(plan: seq<Field<V>>, rule: Text -> Text, key: Text) {
    exists i :: 0 <= i < |plan| && !plan[i].skip && KeyOf(plan[i], rule) == key
  }

  /** Every key is that of a field that is not skipped. */
  ghost predicate AllDeclared<V>(plan: seq<Field<V>>, rule: Text -> Text, held: seq<Entry>) {
    forall k :: 0 <= k < |held| ==> IsDeclared(plan, rule, held[k].key)
  }

  lemma {:induction false} DeclaresEach<V>(plan: seq<Field<V>>, rule: Text -> Text, held: seq<Entry>)
    ensures (exists k :: 0 <= k < |held| && !Declares(plan, rule, held[k].key)) <==> !AllDeclared(plan, rule, held)
  {
    forall k | 0 <= k < |held| ensures Declares(plan, rule, held[k].key) <==> IsDeclared(plan, rule, held[k].key) {
      if i :| 0 <= i < |plan| && !plan[i].skip && KeyOf(plan[i], rule) == held[k].key {
        assert Declares(plan, rule, held[k].key) && IsDeclared(plan, rule, held[k].key);
      }
    }
  }

  /** The reader takes x from a tree, whoever wrote it, if and only if the tree is a map, has
      no key but the fields' where the struct denies unknown ones, and says x of the fields. */
  lemma {:induction false} ReadsExactly<V>(plan: seq<Field<V>>, rule: Text -> Text, strict: bool, tree: Tree,
        x: seq<Value<V>>)
    requires Accepted(plan, rule)
    ensures Read(plan, rule, strict, tree) == Some(x)
      <==>
      && tree.Map?
      && (strict ==> AllDeclared(plan, rule, tree.entries))
      && AllSay(plan, rule, tree.entries, x)
  {
    hide AllSay, ReadFields, AllDeclared, Declares;
    if tree.Map? {
      FieldsReadExactly(plan, rule, tree.entries, x);
      DeclaresEach(plan, rule, tree.entries);
    }
  }

  /** The conversion a field goes by takes the tree. */
  ghost predicate Takes<V>(f: Field<V>, tree: Tree) {
    || (f.optional && tree.Null?)
    || (&& (f.with.Some? ==> f.with.value.from(tree).Some?)
        && (f.asText ==> tree.Str? && f.text.parse(tree.text).Some?)
        && (f.with.None? && !f.asText ==> f.own.from(tree).Some?))
  }

  ghost predicate FieldTakes<V>(f: Field<V>, key: Text, held: seq<Entry>) {
    f.skip
    || (&& (Required(f) ==> exists k :: 0 <= k < |held| && held[k].key == key)
        && forall k: nat :: IsUnder(held, key, k) ==> Takes(f, held[k].value))
  }

  /** A field with no entry under its key is refused if and only if the schema requires it, and
      one with an entry if and only if its conversion refuses what the entry holds. */
  lemma {:induction false} FieldTakesExactly<V>(f: Field<V>, key: Text, held: seq<Entry>)
    requires Refused(f).None?
    ensures ReadField(f, key, held).Some? <==> FieldTakes(f, key, held)
    ensures (forall k :: 0 <= k < |held| ==> held[k].key != key) ==> (ReadField(f, key, held).None? <==> Required(f))
  {
    GetIsUnder(held, key);
    if k: nat :| IsUnder(held, key, k) {
      assert Get(held, key) == Some(held[k].value) && held[k].key == key;
      assert forall j: nat :: IsUnder(held, key, j) ==> j == k;
    }
  }

  ghost predicate AllTake<V>(plan: seq<Field<V>>, rule: Text -> Text, held: seq<Entry>) {
    forall i :: 0 <= i < |plan| ==> FieldTakes(plan[i], KeyOf(plan[i], rule), held)
  }

  lemma AllTakeStep<V>(plan: seq<Field<V>>, rule: Text -> Text, held: seq<Entry>)
    requires plan != []
    ensures var last := |plan| - 1;
      AllTake(plan, rule, held)
      <==> AllTake(plan[..last], rule, held) && FieldTakes(plan[last], KeyOf(plan[last], rule), held)
  {
    hide FieldTakes;
    forall i | 0 <= i < |plan| - 1 ensures plan[..|plan| - 1][i] == plan[i] {}
  }

  lemma {:induction false} FieldsTakeExactly<V>(plan: seq<Field<V>>, rule: Text -> Text, held: seq<Entry>)
    requires forall i :: 0 <= i < |plan| ==> Refused(plan[i]).None?
    ensures ReadFields(plan, rule, held).Some? <==> AllTake(plan, rule, held)
  {
    if plan != [] {
      hide AllTake, FieldTakes, ReadField, Refused;
      var last := |plan| - 1;
      FieldsTakeExactly(plan[..last], rule, held);
      FieldTakesExactly(plan[last], KeyOf(plan[last], rule), held);
      AllTakeStep(plan, rule, held);
    }
  }

  /** What the reader refuses of trees nobody wrote: those that are no map, an undeclared key
      where they are denied, a required key missing, and what a field's conversion refuses. */
  lemma {:induction false} TakesExactly<V>(plan: seq<Field<V>>, rule: Text -> Text, strict: bool, tree: Tree)
    requires Accepted(plan, rule)
    ensures Read(plan, rule, strict, tree).Some?
      <==>
      && tree.Map?
      && (strict ==> AllDeclared(plan, rule, tree.entries))
      && AllTake(plan, rule, tree.entries)
  {
    hide AllTake, ReadFields, AllDeclared, Declares;
    if tree.Map? {
      FieldsTakeExactly(plan, rule, tree.entries);
      DeclaresEach(plan, rule, tree.entries);
    }
  }

  /** Three of the refusals are of plans that could not read back: a value left out with no
      default to read, a default on an Option, whose None would read as it, and two fields on
      one key, of which the first would read the second's value. */
  lemma {:induction false} RefusalsAreNeeded<V>(f: Field<V>, g: Field<V>, key: Text, x: Value<V>, y: Value<V>)
    requires !f.skip && !f.flatten && f.with.None? && !f.asText
    ensures f.skipIf.Some? && f.default.None? && !f.optional && f.skipIf.value(x) ==>
      ReadField(f, key, SetField(f, key, x, [])) == None
    ensures f.default.Some? && f.optional ==> ReadField(f, key, SetField(f, key, Nothing, [])) != Some(Nothing)
    ensures f.default.None? && !f.optional && !Omits(g, y) ==>
      ReadField(f, key, SetField(g, key, y, SetField(f, key, x, []))) == ReadField(f, key, SetField(g, key, y, []))
  {
    if !Omits(g, y) {
      GetSet(SetField(f, key, x, []), key, Stored(g, y.v), key);
      GetSet([], key, Stored(g, y.v), key);
    }
  }

  // --- enums of names ----------------------------------------------------------------------

  datatype ChoiceVariant = ChoiceVariant(stored: Text, other: bool)

  /** A unit variant, or the catch-all with the text it holds. */
  datatype Choice = Unit(at: nat) | Other(at: nat, text: Text)

  /** The first variant stored as name, the catch-all never; how many there are when
      there is none. */
  function Named(variants: seq<ChoiceVariant>, name: Text): (at: nat)
    ensures at <= |variants|
    ensures at < |variants| ==> !variants[at].other && variants[at].stored == name
    ensures forall i :: 0 <= i < at ==> variants[i].other || variants[i].stored != name
  {
    if variants == [] || (!variants[0].other && variants[0].stored == name) then 0
    else
      assert forall i :: 0 < i < |variants| ==> variants[i] == variants[1..][i - 1];
      1 + Named(variants[1..], name)
  }

  function CatchAll(variants: seq<ChoiceVariant>): (at: nat)
    ensures at <= |variants| && (at < |variants| ==> variants[at].other)
    ensures forall i :: 0 <= i < at ==> !variants[i].other
  {
    if variants == [] || variants[0].other then 0
    else
      assert forall i :: 0 < i < |variants| ==> variants[i] == variants[1..][i - 1];
      1 + CatchAll(variants[1..])
  }

  ghost predicate DistinctVariants(variants: seq<ChoiceVariant>) {
    forall i, j :: 0 <= i < j < |variants| && !variants[i].other && !variants[j].other ==>
      variants[i].stored != variants[j].stored
  }

  method RejectDuplicateVariants(variants: seq<ChoiceVariant>) returns (ok: bool)
    ensures ok == DistinctVariants(variants)
  {
    for i := 0 to |variants|
      invariant DistinctVariants(variants[..i])
    {
      if !variants[i].other {
        for j := 0 to i
          invariant forall k :: 0 <= k < j && !variants[k].other ==> variants[k].stored != variants[i].stored
        {
          if !variants[j].other && variants[j].stored == variants[i].stored { return false; }
        }
      }
      assert variants[..i + 1] == variants[..i] + [variants[i]];
    }
    assert variants[..|variants|] == variants;
    ok := true;
  }

  ghost predicate AcceptedChoice(variants: seq<ChoiceVariant>) {
    && variants != [] && DistinctVariants(variants)
    && (forall i, j :: 0 <= i < j < |variants| ==> !(variants[i].other && variants[j].other))
  }

  ghost predicate OfChoice(variants: seq<ChoiceVariant>, x: Choice) {
    x.at < |variants| && variants[x.at].other == x.Other?
  }

  function WriteChoice(variants: seq<ChoiceVariant>, x: Choice): Tree
    requires x.at < |variants|
  {
    Str(if x.Unit? then variants[x.at].stored else x.text)
  }

  function ReadChoice(variants: seq<ChoiceVariant>, tree: Tree): Option<Choice> {
    if !tree.Str? then None
    else if Named(variants, tree.text) < |variants| then Some(Unit(Named(variants, tree.text)))
    else if CatchAll(variants) < |variants| then Some(Other(CatchAll(variants), tree.text))
    else None
  }

  /** Whether the generated schema has the text: one of the names, or any with a catch-all. */
  predicate Offers(variants: seq<ChoiceVariant>, text: Text) {
    Named(variants, text) < |variants| || CatchAll(variants) < |variants|
  }

  /** Every value of the enum is written as what its schema has, and comes back the same if
      and only if it is not the catch-all holding a declared name. */
  lemma {:induction false} ChoiceReadsBack(variants: seq<ChoiceVariant>, x: Choice)
    requires AcceptedChoice(variants) && OfChoice(variants, x)
    ensures Offers(variants, WriteChoice(variants, x).text)
    ensures ReadChoice(variants, WriteChoice(variants, x)) == Some(x)
      <==> (x.Other? ==> forall i :: 0 <= i < |variants| && !variants[i].other ==> variants[i].stored != x.text)
  {
    var text := WriteChoice(variants, x).text;
    if x.Unit? {
      assert Named(variants, text) == x.at;
    } else {
      assert CatchAll(variants) == x.at;
    }
  }

  /** Whatever the reader takes is what the writer of it wrote. */
  lemma {:induction false} ChoiceWritesBack(variants: seq<ChoiceVariant>, tree: Tree)
    requires ReadChoice(variants, tree).Some?
    ensures WriteChoice(variants, ReadChoice(variants, tree).value) == tree
    ensures Offers(variants, tree.text)
  {
  }

  /** A text is taken, and the schema has it, if and only if it is a declared name or there is a
      catch-all; nothing but a text is. */
  lemma {:induction false} ChoiceTakesExactly(variants: seq<ChoiceVariant>, tree: Tree)
    ensures ReadChoice(variants, tree).Some?
      <==> tree.Str? && exists i :: 0 <= i < |variants| && (variants[i].other || variants[i].stored == tree.text)
    ensures tree.Str? ==> (ReadChoice(variants, tree).Some? <==> Offers(variants, tree.text))
  {
    if tree.Str? {
      if i :| 0 <= i < |variants| && (variants[i].other || variants[i].stored == tree.text) {
        assert Named(variants, tree.text) <= i || CatchAll(variants) <= i;
      }
    }
  }

  // --- enums with a tag --------------------------------------------------------------------

  datatype Variant<!V> = Variant(stored: Text, fields: seq<Field<V>>)

  datatype Tagged<V> = Tagged(at: nat, x: seq<Value<V>>)

  /** A variant's fields have no case rule of the enum's. */
  function Same(name: Text): Text { name }

  ghost predicate OffTheTag<V>(tag: Text, variants: seq<Variant<V>>) {
    forall i :: 0 <= i < |variants| ==> !Declares(variants[i].fields, Same, tag)
  }

  /** Whether no variant has a field whose key is the tag's. */
  method RejectFieldsOnTheTag<V>(tag: Text, variants: seq<Variant<V>>) returns (ok: bool)
    ensures ok == OffTheTag(tag, variants)
  {
    for i := 0 to |variants|
      invariant OffTheTag(tag, variants[..i])
    {
      var fields := variants[i].fields;
      for j := 0 to |fields|
        invariant forall k :: 0 <= k < j ==> fields[k].skip || KeyOf(fields[k], Same) != tag
      {
        if !fields[j].skip && KeyOf(fields[j], Same) == tag {
          assert Declares(fields, Same, tag);
          return false;
        }
      }
      assert variants[..i + 1] == variants[..i] + [variants[i]];
    }
    assert variants[..|variants|] == variants;
    ok := true;
  }

  ghost predicate AcceptedTagged<V>(tag: Text, variants: seq<Variant<V>>) {
    && OffTheTag(tag, variants)
    && (forall i :: 0 <= i < |variants| ==> Accepted(variants[i].fields, Same))
    && (forall i, j :: 0 <= i < j < |variants| ==> variants[i].stored != variants[j].stored)
  }

  function VariantNamed<V>(variants: seq<Variant<V>>, name: Text): (at: nat)
    ensures at <= |variants|
    ensures at < |variants| ==> variants[at].stored == name
    ensures forall i :: 0 <= i < at ==> variants[i].stored != name
  {
    if variants == [] || variants[0].stored == name then 0
    else
      assert forall i :: 0 < i < |variants| ==> variants[i] == variants[1..][i - 1];
      1 + VariantNamed(variants[1..], name)
  }

  /** The tag goes in first, then the variant's fields beside it. */
  function WriteTagged<V>(tag: Text, variants: seq<Variant<V>>, v: Tagged<V>): seq<Entry>
    requires v.at < |variants| && |v.x| == |variants[v.at].fields|
  {
    WriteOnto(variants[v.at].fields, Same, v.x, SetEntry([], tag, Str(variants[v.at].stored)))
  }

  function ReadTagged<V>(tag: Text, variants: seq<Variant<V>>, tree: Tree): Option<Tagged<V>> {
    if !tree.Map? then None
    else
      var name := Get(tree.entries, tag);
      if name.None? || !name.value.Str? then None
      else
        var at := VariantNamed(variants, name.value.text);
        if at == |variants| then None
        else
          var x := ReadFields(variants[at].fields, Same, tree.entries);
          if x.Some? then Some(Tagged(at, x.value)) else None
  }

  /** What the fields of a tagged value's variant wrote, and the tag beside them. */
  lemma {:induction false} TaggedHolds<V>(tag: Text, variants: seq<Variant<V>>, v: Tagged<V>)
    requires AcceptedTagged(tag, variants) && v.at < |variants| && OfPlan(variants[v.at].fields, v.x)
    ensures var plan, written := variants[v.at].fields, WriteTagged(tag, variants, v);
      && Get(written, tag) == Some(Str(variants[v.at].stored))
      && forall i :: 0 <= i < |plan| && !plan[i].skip ==>
           Get(written, KeyOf(plan[i], Same))
           == if Omits(plan[i], v.x[i]) then None else Some(Stored(plan[i], v.x[i].v))
  {
    var plan, start := variants[v.at].fields, SetEntry([], tag, Str(variants[v.at].stored));
    NotWritten(plan, Same, v.x, start, tag);
    forall i | 0 <= i < |plan| && !plan[i].skip
      ensures Get(WriteTagged(tag, variants, v), KeyOf(plan[i], Same))
           == if Omits(plan[i], v.x[i]) then None else Some(Stored(plan[i], v.x[i].v))
    {
      assert Declares(plan, Same, KeyOf(plan[i], Same));
      assert Get(start, KeyOf(plan[i], Same)) == None;
      WrittenUnder(plan, Same, v.x, start, i);
    }
  }

  /** A tagged value comes back as its own variant, each field as in a struct; the same if and
      only if each field does. */
  lemma {:induction false} TaggedReadsBack<V>(tag: Text, variants: seq<Variant<V>>, v: Tagged<V>)
    requires AcceptedTagged(tag, variants) && v.at < |variants| && OfPlan(variants[v.at].fields, v.x)
    ensures var r := ReadTagged(tag, variants, Map(WriteTagged(tag, variants, v)));
      && r == (match AllReadAs(variants[v.at].fields, v.x) case None => None case Some(x) => Some(Tagged(v.at, x)))
      && (r == Some(v) <==> AllKept(variants[v.at].fields, v.x))
  {
    TaggedHolds(tag, variants, v);
    FieldsReadBack(variants[v.at].fields, Same, v.x, WriteTagged(tag, variants, v));
    ReadAsThemselves(variants[v.at].fields, Same, v.x);
  }

  /** Every key an arm of the generated schema requires, and the tag with the variant's name,
      is in every map written of the variant. */
  lemma {:induction false} ArmRequiredIsWritten<V>(tag: Text, variants: seq<Variant<V>>, v: Tagged<V>)
    requires AcceptedTagged(tag, variants) && v.at < |variants| && OfPlan(variants[v.at].fields, v.x)
    ensures var plan, written := variants[v.at].fields, WriteTagged(tag, variants, v);
      && Get(written, tag) == Some(Str(variants[v.at].stored))
      && forall i :: 0 <= i < |plan| && Required(plan[i]) ==> Get(written, KeyOf(plan[i], Same)).Some?
  {
    TaggedHolds(tag, variants, v);
    var plan := variants[v.at].fields;
    forall i | 0 <= i < |plan| && Required(plan[i]) ensures !Omits(plan[i], v.x[i]) {
      assert OfField(plan[i], v.x[i]) && Refused(plan[i]).None?;
    }
  }

  /** A tagged value is taken of a tree if and only if the tree is a map, has under the tag the
      name of one variant, and says the variant's fields; a key the variant does not declare
      is passed over. */
  lemma {:induction false} TaggedReadsExactly<V>(tag: Text, variants: seq<Variant<V>>, tree: Tree, v: Tagged<V>)
    requires AcceptedTagged(tag, variants)
    ensures ReadTagged(tag, variants, tree) == Some(v)
      <==>
      && tree.Map? && v.at < |variants|
      && (exists k: nat :: IsUnder(tree.entries, tag, k) && tree.entries[k].value == Str(variants[v.at].stored))
      && AllSay(variants[v.at].fields, Same, tree.entries, v.x)
  {
    if tree.Map? {
      TagIsNamed(tag, variants, tree.entries, v.at);
      hide AllSay, IsUnder;
      if v.at < |variants| { FieldsReadExactly(variants[v.at].fields, Same, tree.entries, v.x); }
    }
  }

  /** The tag's name picks the variant: none when there is no such entry, it is no text, or no
      variant is stored so. */
  lemma {:induction false} TagIsNamed<V>(tag: Text, variants: seq<Variant<V>>, held: seq<Entry>, at: nat)
    requires AcceptedTagged(tag, variants)
    ensures var name := Get(held, tag);
      (name.Some? && name.value.Str? && VariantNamed(variants, name.value.text) == at < |variants|)
      <==> at < |variants| && exists k: nat :: IsUnder(held, tag, k) && held[k].value == Str(variants[at].stored)
  {
    GetIsUnder(held, tag);
  }

  /** What is refused: a tree that is no map, a missing tag or one that names no variant, a
      required key of the variant missing, and what one of its conversions refuses. */
  lemma {:induction false} TaggedTakesExactly<V>(tag: Text, variants: seq<Variant<V>>, tree: Tree)
    requires AcceptedTagged(tag, variants)
    ensures ReadTagged(tag, variants, tree).Some?
      <==>
      && tree.Map?
      && exists at: nat, k: nat ::
           && at < |variants| && IsUnder(tree.entries, tag, k) && tree.entries[k].value == Str(variants[at].stored)
           && AllTake(variants[at].fields, Same, tree.entries)
  {
    if tree.Map? {
      var name := Get(tree.entries, tag);
      forall at: nat | at < |variants|
        ensures (exists k: nat :: IsUnder(tree.entries, tag, k) && tree.entries[k].value == Str(variants[at].stored))
          <==> name.Some? && name.value.Str? && VariantNamed(variants, name.value.text) == at
      {
        TagIsNamed(tag, variants, tree.entries, at);
      }
      if name.Some? && name.value.Str? && VariantNamed(variants, name.value.text) < |variants| {
        FieldsTakeExactly(variants[VariantNamed(variants, name.value.text)].fields, Same, tree.entries);
      }
    }
  }

  // --- structs that are not a map ------------------------------------------------------------

  /** A tuple is written as a list, each item by its own position's conversion. */
  function WriteTuple<V>(types: seq<Conv<V>>, x: seq<V>): seq<Tree>
    requires |x| == |types|
  {
    if types == [] then []
    else WriteTuple(types[..|types| - 1], x[..|x| - 1]) + [types[|types| - 1].to(x[|x| - 1])]
  }

  function ReadTuple<V>(types: seq<Conv<V>>, tree: Tree): Option<seq<V>> {
    if !tree.List? || |tree.items| != |types| then None
    else ReadItems(types, tree.items)
  }

  function ReadItems<V>(types: seq<Conv<V>>, items: seq<Tree>): Option<seq<V>>
    requires |items| == |types|
  {
    if types == [] then Some([])
    else
      var last := |types| - 1;
      var front, v := ReadItems(types[..last], items[..last]), types[last].from(items[last]);
      if front.Some? && v.Some? then Some(front.value + [v.value]) else None
  }

  /** Each position's conversion reads back this value of it. */
  predicate EachInverts<V(==)>(types: seq<Conv<V>>, x: seq<V>)
    requires |x| == |types|
  {
    forall i :: 0 <= i < |types| ==> types[i].from(types[i].to(x[i])) == Some(x[i])
  }

  lemma EachInvertsStep<V>(types: seq<Conv<V>>, x: seq<V>)
    requires |x| == |types| && types != []
    ensures var last := |types| - 1;
      EachInverts(types, x)
      <==> EachInverts(types[..last], x[..last]) && types[last].from(types[last].to(x[last])) == Some(x[last])
  {
    var last := |types| - 1;
    forall i | 0 <= i < last ensures types[..last][i] == types[i] && x[..last][i] == x[i] {}
  }

  lemma {:induction false} ItemsReadBack<V>(types: seq<Conv<V>>, x: seq<V>)
    requires |x| == |types|
    ensures |WriteTuple(types, x)| == |types|
    ensures ReadItems(types, WriteTuple(types, x)) == Some(x) <==> EachInverts(types, x)
  {
    if types != [] {
      hide EachInverts;
      var last := |types| - 1;
      var front, written := WriteTuple(types[..last], x[..last]), WriteTuple(types, x);
      ItemsReadBack(types[..last], x[..last]);
      EachInvertsStep(types, x);
      ReadLength(types[..last], front);
      assert written[..last] == front && written[last] == types[last].to(x[last]);
      var read, v := ReadItems(types[..last], front), types[last].from(written[last]);
      if read.Some? && v.Some? {
        var all := read.value + [v.value];
        assert all[..last] == read.value && all[last] == v.value;
        assert all == x <==> read.value == x[..last] && v.value == x[last] by {
          assert x == x[..last] + [x[last]];
        }
      }
    }
  }

  lemma {:induction false} ReadLength<V>(types: seq<Conv<V>>, items: seq<Tree>)
    requires |items| == |types|
    ensures ReadItems(types, items).Some? ==> |ReadItems(types, items).value| == |types|
  {
    if types != [] { ReadLength(types[..|types| - 1], items[..|types| - 1]); }
  }

  /** A tuple comes back the same if and only if each position's conversion reads back its
      value, and a list of another length is refused. */
  lemma {:induction false} TupleReadsBack<V>(types: seq<Conv<V>>, x: seq<V>, items: seq<Tree>)
    requires |x| == |types|
    ensures ReadTuple(types, List(WriteTuple(types, x))) == Some(x) <==> EachInverts(types, x)
    ensures |items| != |types| ==> ReadTuple(types, List(items)) == None
  {
    ItemsReadBack(types, x);
  }

  /** A tuple is taken of a list of its length whose items its conversions take, each by its
      position's own, and of nothing else. */
  lemma {:induction false} TupleReadsExactly<V>(types: seq<Conv<V>>, tree: Tree, x: seq<V>)
    ensures ReadTuple(types, tree) == Some(x)
      <==> tree.List? && |tree.items| == |types| && EachReads(types, tree.items, x)
  {
    if tree.List? && |tree.items| == |types| { ItemsReadExactly(types, tree.items, x); }
  }

  ghost predicate EachReads<V>(types: seq<Conv<V>>, items: seq<Tree>, x: seq<V>)
    requires |items| == |types|
  {
    |x| == |types| && forall i :: 0 <= i < |types| ==> types[i].from(items[i]) == Some(x[i])
  }

  lemma {:induction false} EachReadsStep<V>(types: seq<Conv<V>>, items: seq<Tree>, x: seq<V>)
    requires |items| == |types| == |x|
    ensures var last := |types| - 1;
      EachReads(types, items, x)
      <==> types == [] || (EachReads(types[..last], items[..last], x[..last])
                           && types[last].from(items[last]) == Some(x[last]))
  {
    var last := |types| - 1;
    forall i | 0 <= i < last
      ensures types[..last][i] == types[i] && items[..last][i] == items[i] && x[..last][i] == x[i] {}
  }

  lemma {:induction false} ItemsReadExactly<V>(types: seq<Conv<V>>, items: seq<Tree>, x: seq<V>)
    requires |items| == |types|
    ensures ReadItems(types, items) == Some(x) <==> |x| == |types| && EachReads(types, items, x)
  {
    hide EachReads;
    ReadLength(types, items);
    if |x| == |types| {
      EachReadsStep(types, items, x);
      if types != [] {
        var last := |types| - 1;
        ItemsReadExactly(types[..last], items[..last], x[..last]);
        ReadLength(types[..last], items[..last]);
        JoinIs(ReadItems(types[..last], items[..last]), types[last].from(items[last]), x);
      }
    }
  }

  /** The one field a transparent struct's value is; how many fields there are when all are
      skipped. */
  function TheOne<V>(plan: seq<Field<V>>): (i: nat)
    ensures i <= |plan| && (i < |plan| ==> !plan[i].skip) && forall j :: 0 <= j < i ==> plan[j].skip
  {
    if plan == [] || !plan[0].skip then 0
    else
      assert forall j :: 0 < j < |plan| ==> plan[j] == plan[1..][j - 1];
      1 + TheOne(plan[1..])
  }

  /** One field that says nothing of its own, and the rest skipped. */
  ghost predicate AcceptedTransparent<V>(plan: seq<Field<V>>) {
    var i := TheOne(plan);
    && i < |plan| && (forall j :: i < j < |plan| ==> plan[j].skip)
    && plan[i].rename.None? && plan[i].default.None? && !plan[i].flatten
    && plan[i].with.None? && !plan[i].asText && plan[i].skipIf.None?
  }

  function WriteTransparent<V>(plan: seq<Field<V>>, x: seq<Value<V>>): Tree
    requires |x| == |plan| && TheOne(plan) < |plan|
  {
    var i := TheOne(plan);
    if x[i].Nothing? then Null else plan[i].own.to(x[i].v)
  }

  function ReadTransparent<V>(plan: seq<Field<V>>, tree: Tree): Option<seq<Value<V>>>
    requires TheOne(plan) < |plan|
  {
    var i := TheOne(plan);
    var f := plan[i];
    var read := if f.optional && tree.Null? then Some(Nothing)
      else
        var v := f.own.from(tree);
        if v.None? then None else Some(if f.optional then Just(v.value) else Plain(v.value));
    if read.None? then None
    else Some(seq(|plan|, j requires 0 <= j < |plan| => if j == i then read.value else plan[j].fallback))
  }

  /** A transparent struct comes back the same if and only if its one field's conversion
      reads back the value, an Option held nothing written as a null, and the fields beside it
      were their Defaults. */
  lemma {:induction false} TransparentReadsBack<V>(plan: seq<Field<V>>, x: seq<Value<V>>)
    requires AcceptedTransparent(plan) && OfPlan(plan, x)
    ensures ReadTransparent(plan, WriteTransparent(plan, x)) == Some(x) <==> AllKept(plan, x)
  {
    var i, r := TheOne(plan), ReadTransparent(plan, WriteTransparent(plan, x));
    assert OfField(plan[i], x[i]);
    if r.Some? {
      assert |r.value| == |x| && (r.value[i] == x[i] <==> Kept(plan[i], x[i]));
      assert forall j :: 0 <= j < |plan| && j != i ==> plan[j].skip && r.value[j] == plan[j].fallback;
      if AllKept(plan, x) {
        assert r.value == x;
      } else {
        var j :| 0 <= j < |plan| && !Kept(plan[j], x[j]);
        assert r.value[j] != x[j];
      }
    } else {
      assert !Kept(plan[i], x[i]);
    }
  }

  /** A transparent struct is taken of what its one field is, null for an Option's None, and
      the fields beside it are their Defaults. */
  lemma {:induction false} TransparentReadsExactly<V>(plan: seq<Field<V>>, tree: Tree, x: seq<Value<V>>)
    requires AcceptedTransparent(plan)
    ensures ReadTransparent(plan, tree) == Some(x)
      <==>
      && |x| == |plan| && SaysOf(plan[TheOne(plan)], tree, x[TheOne(plan)])
      && forall j :: 0 <= j < |plan| && j != TheOne(plan) ==> x[j] == plan[j].fallback
  {
    var i, r := TheOne(plan), ReadTransparent(plan, tree);
    if |x| == |plan| && r.Some? {
      assert r.value == x <==> forall j :: 0 <= j < |plan| ==> r.value[j] == x[j];
    }
  }
}
