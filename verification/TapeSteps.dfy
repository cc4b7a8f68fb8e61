/** What each read of the tape answers, said over the tree its bytes hold. */
module TapeSteps {
  import opened Texts
  import opened GoData
  import opened Wire
  import D = Decoding

  // --- a whole node --------------------------------------------------------------

  ghost function DecodeStep(s: Text, ty: Type, dst: Data, depth: nat): (r: Step<Data>)
    requires HasType(dst, ty)
    ensures r.Read? ==> HasType(r.value, ty) && |r.rest| < |s|
  {
    match Parse(s)
    case Refused => Refused
    case Read(t, rest) =>
      match D.Decode(D.TapeReader, t, ty, dst, depth) case None => Refused case Some(v) => Read(v, rest)
  }

  ghost function PlainStep(s: Text, depth: nat): (r: Step<Data>)
    ensures r.Read? ==> HasType(r.value, TAny) && |r.rest| < |s|
  {
    match Parse(s)
    case Refused => Refused
    case Read(t, rest) => match D.Plain(t, depth) case None => Refused case Some(v) => Read(v, rest)
  }

  ghost function SkipStep(s: Text, depth: nat): (r: Step<()>)
    ensures r.Read? ==> |r.rest| < |s|
  {
    match Parse(s)
    case Refused => Refused
    case Read(t, rest) => if Nests(t, depth) then Read((), rest) else Refused
  }

  // --- the items of a container, n of them left ----------------------------------------

  ghost function ListStep(s: Text, n: nat, e: Type, into: seq<Data>, depth: nat): Step<seq<Data>>
    requires |into| == n && AllHaveType(into, e)
  {
    match ParseItems(s, n)
    case Refused => Refused
    case Read(items, rest) =>
      match D.DecodeItems(D.TapeReader, items, e, into, depth) case None => Refused case Some(vs) => Read(vs, rest)
  }

  ghost function DictStep(s: Text, n: nat, kt: KeyType, e: Type, m: map<Key, Data>, depth: nat): Step<map<Key, Data>>
    requires D.DictHasType(m, kt, e)
  {
    match ParseEntries(s, n)
    case Refused => Refused
    case Read(entries, rest) =>
      match D.DecodeDict(D.TapeReader, entries, kt, e, m, depth) case None => Refused case Some(out) => Read(out, rest)
  }

  ghost function StructStep(s: Text, n: nat, fs: seq<Field>, vs: seq<Data>, depth: nat): Step<seq<Data>>
    requires FieldsHaveType(vs, fs)
  {
    match ParseEntries(s, n)
    case Refused => Refused
    case Read(entries, rest) =>
      match D.DecodeEntries(entries, fs, vs, depth) case None => Refused case Some(out) => Read(out, rest)
  }

  ghost function PlainListStep(s: Text, n: nat, depth: nat): Step<seq<Data>> {
    match ParseItems(s, n)
    case Refused => Refused
    case Read(items, rest) => match D.PlainItems(items, depth) case None => Refused case Some(vs) => Read(vs, rest)
  }

  ghost function PlainDictStep(s: Text, n: nat, m: map<Key, Data>, depth: nat): Step<map<Key, Data>>
    requires D.DictHasType(m, KeyString, TAny)
  {
    match ParseEntries(s, n)
    case Refused => Refused
    case Read(entries, rest) =>
      match D.PlainEntries(entries, m, depth) case None => Refused case Some(out) => Read(out, rest)
  }

  ghost function SkipItemsStep(s: Text, n: nat, depth: nat): Step<()> {
    match ParseItems(s, n)
    case Refused => Refused
    case Read(items, rest) =>
      if forall i :: 0 <= i < |items| ==> Nests(items[i], depth) then Read((), rest) else Refused
  }

  ghost function SkipEntriesStep(s: Text, n: nat, depth: nat): Step<()> {
    match ParseEntries(s, n)
    case Refused => Refused
    case Read(entries, rest) =>
      if forall i :: 0 <= i < |entries| ==> Nests(entries[i].value, depth) then Read((), rest) else Refused
  }

  // --- one item, then the rest of them -------------------------------------------------

  ghost function Prefixed<T>(head: seq<T>, tail: Step<seq<T>>): (r: Step<seq<T>>)
    ensures head == [] ==> r == tail
    ensures tail.Read? && tail.value == [] ==> r == Read(head, tail.rest)
  {
    match tail
    case Refused => Refused
    case Read(vs, rest) =>
      assert head + [] == head && [] + vs == vs;
      Read(head + vs, rest)
  }

  lemma ListSteps(s: Text, n: nat, e: Type, into: seq<Data>, depth: nat)
    requires 0 < n == |into| && AllHaveType(into, e)
    ensures ListStep(s, n, e, into, depth)
         == match DecodeStep(s, e, into[0], depth)
            case Refused => Refused
            case Read(v, more) => Prefixed([v], ListStep(more, n - 1, e, into[1..], depth))
  {
    hide D.Decode, HasType;
  }

  lemma PlainListSteps(s: Text, n: nat, depth: nat)
    requires 0 < n
    ensures PlainListStep(s, n, depth)
         == match PlainStep(s, depth)
            case Refused => Refused
            case Read(v, more) => Prefixed([v], PlainListStep(more, n - 1, depth))
  {
    hide D.Plain, HasType;
  }

  ghost function DictNext(s: Text, n: nat, kt: KeyType, e: Type, m: map<Key, Data>, depth: nat): Step<map<Key, Data>>
    requires 0 < n && D.DictHasType(m, kt, e)
  {
    match UnText(s)
    case Refused => Refused
    case Read(text, more) =>
      match D.ReadKey(text, kt)
      case None => Refused
      case Some(k) =>
        match DecodeStep(more, e, Zero(e), depth)
        case Refused => Refused
        case Read(v, rest) => DictStep(rest, n - 1, kt, e, D.Put(m, kt, e, k, v), depth)
  }

  lemma DictSteps(s: Text, n: nat, kt: KeyType, e: Type, m: map<Key, Data>, depth: nat)
    requires 0 < n && D.DictHasType(m, kt, e)
    ensures DictStep(s, n, kt, e, m, depth) == DictNext(s, n, kt, e, m, depth)
  {
    hide D.Decode, HasType, D.DictHasType, D.ReadKey;
    EntriesStep(s, n);
  }

  ghost function PlainDictNext(s: Text, n: nat, m: map<Key, Data>, depth: nat): Step<map<Key, Data>>
    requires 0 < n && D.DictHasType(m, KeyString, TAny)
  {
    match UnText(s)
    case Refused => Refused
    case Read(text, more) =>
      match PlainStep(more, depth)
      case Refused => Refused
      case Read(v, rest) => PlainDictStep(rest, n - 1, D.Put(m, KeyString, TAny, KText(text), v), depth)
  }

  lemma PlainDictSteps(s: Text, n: nat, m: map<Key, Data>, depth: nat)
    requires 0 < n && D.DictHasType(m, KeyString, TAny)
    ensures PlainDictStep(s, n, m, depth) == PlainDictNext(s, n, m, depth)
  {
    hide D.Plain, HasType, D.DictHasType;
    EntriesStep(s, n);
  }

  ghost function StructNext(s: Text, n: nat, fs: seq<Field>, vs: seq<Data>, depth: nat): Step<seq<Data>>
    requires 0 < n && FieldsHaveType(vs, fs)
  {
    match UnText(s)
    case Refused => Refused
    case Read(text, more) =>
      var k := D.FieldNamed(fs, text);
      if k == |fs| then
        match SkipStep(more, depth)
        case Refused => Refused
        case Read(_, rest) => StructStep(rest, n - 1, fs, vs, depth)
      else
        match DecodeStep(more, fs[k].ty, vs[k], depth)
        case Refused => Refused
        case Read(v, rest) => StructStep(rest, n - 1, fs, vs[k := v], depth)
  }

  lemma StructSteps(s: Text, n: nat, fs: seq<Field>, vs: seq<Data>, depth: nat)
    requires 0 < n && FieldsHaveType(vs, fs)
    ensures StructStep(s, n, fs, vs, depth) == StructNext(s, n, fs, vs, depth)
  {
    hide D.Decode, HasType, Nests;
    EntriesStep(s, n);
  }

  lemma SkipItemsSteps(s: Text, n: nat, depth: nat)
    requires 0 < n
    ensures SkipItemsStep(s, n, depth)
         == match SkipStep(s, depth)
            case Refused => Refused
            case Read(_, more) => SkipItemsStep(more, n - 1, depth)
  {
    hide Nests;
    var head := Parse(s);
    if head.Read? && ParseItems(head.rest, n - 1).Read? {
      var tail := ParseItems(head.rest, n - 1).value;
      assert forall i :: 0 <= i < |tail| ==> ([head.value] + tail)[i + 1] == tail[i];
      assert ([head.value] + tail)[0] == head.value;
    }
  }

  lemma SkipEntriesSteps(s: Text, n: nat, depth: nat)
    requires 0 < n
    ensures SkipEntriesStep(s, n, depth)
         == match UnText(s)
            case Refused => Refused
            case Read(_, more) =>
              match SkipStep(more, depth)
              case Refused => Refused
              case Read(_, rest) => SkipEntriesStep(rest, n - 1, depth)
  {
    hide Nests;
    EntriesStep(s, n);
    var head := ParseEntry(s);
    if head.Read? && ParseEntries(head.rest, n - 1).Read? {
      var tail := ParseEntries(head.rest, n - 1).value;
      assert forall i :: 0 <= i < |tail| ==> ([head.value] + tail)[i + 1] == tail[i];
      assert ([head.value] + tail)[0] == head.value;
    }
  }

  lemma EntriesStep(s: Text, n: nat)
    requires 0 < n
    ensures ParseEntries(s, n)
         == match UnText(s)
            case Refused => Refused
            case Read(key, more) =>
              match Parse(more)
              case Refused => Refused
              case Read(t, rest) => Prefixed([Entry(key, t)], ParseEntries(rest, n - 1))
    ensures match ParseEntries(s, n)
            case Refused => true
            case Read(entries, _) => entries != [] && entries[1..] == ParseEntries(ParseEntry(s).rest, n - 1).value
  {
  }

  // --- no item left --------------------------------------------------------------------

  lemma ListEnds(s: Text, e: Type, into: seq<Data>, depth: nat)
    requires into == []
    ensures ListStep(s, 0, e, into, depth) == Read([], s)
  {
  }

  lemma DictEnds(s: Text, kt: KeyType, e: Type, m: map<Key, Data>, depth: nat)
    requires D.DictHasType(m, kt, e)
    ensures DictStep(s, 0, kt, e, m, depth) == Read(m, s)
  {
  }

  lemma StructEnds(s: Text, fs: seq<Field>, vs: seq<Data>, depth: nat)
    requires FieldsHaveType(vs, fs)
    ensures StructStep(s, 0, fs, vs, depth) == Read(vs, s)
  {
  }

  lemma PlainListEnds(s: Text, depth: nat)
    ensures PlainListStep(s, 0, depth) == Read([], s)
  {
  }

  lemma PlainDictEnds(s: Text, m: map<Key, Data>, depth: nat)
    requires D.DictHasType(m, KeyString, TAny)
    ensures PlainDictStep(s, 0, m, depth) == Read(m, s)
  {
  }

  lemma PlainNothing(depth: nat)
    ensures PlainStep([], depth).Refused?
  {
  }

  lemma SkipEnds(s: Text, depth: nat)
    ensures SkipItemsStep(s, 0, depth) == SkipEntriesStep(s, 0, depth) == Read((), s)
  {
  }

  lemma SkipNothing(depth: nat)
    ensures SkipStep([], depth).Refused?
  {
  }
}
