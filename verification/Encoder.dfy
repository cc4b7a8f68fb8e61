/** The encoder's walk over Go data: the events it sends are those of the tree it
    describes, and its depth is as it was on every way out. */
module Encoders {
  import opened Texts
  import opened GoData
  import opened KeyOrder
  import opened Encoding
  import opened Events
  import Numbers
  import W = Wire

  /** What sending a container's items adds to what was sent, when all are written. */
  ghost predicate AllNoAbsent(ts: seq<W.Tree>) {
    forall i :: 0 <= i < |ts| ==> NoAbsent(ts[i])
  }

  ghost predicate NoneAbsent(es: seq<W.Entry>) {
    forall i :: 0 <= i < |es| ==> NoAbsent(es[i].value)
  }

  /** One write answered ok of a value whose tree is t: the depth is as it was, what
      was sent is what was sent before and t's events, and on a refusal still nothing
      a sink cannot take. */
  ghost predicate Wrote(ok: bool, t: Option<W.Tree>, sent: seq<Event>, depth: nat, sentNow: seq<Event>, depthNow: nat) {
    && depthNow == depth && ok == t.Some? && OpenAfter(0, sentNow).Some?
    && (ok ==> NoAbsent(t.value) && sentNow == sent + EventsOf(t.value))
  }

  class Encoder {
    var sent: seq<Event>
    var depth: nat

    constructor ()
      ensures sent == [] && depth == 0 && Legal()
    {
      sent, depth := [], 0;
    }

    /** A sink can take what was sent. */
    ghost predicate Legal()
      reads this
    {
      OpenAfter(0, sent).Some?
    }

    method Send(ev: Event)
      requires Legal() && Shift(OpenAfter(0, sent).value, ev).Some?
      modifies this
      ensures Legal() && depth == old(depth) && sent == old(sent) + [ev]
      ensures Shift(OpenAfter(0, old(sent)).value, ev) == OpenAfter(0, sent)
    {
      OpenAfterBoth(0, sent, [ev]);
      sent := sent + [ev];
    }

    /** e.str, and a number's check. */
    method WriteText(text: Text, number: bool) returns (ok: bool)
      requires Legal()
      modifies this
      ensures Wrote(ok, if number then if Numbers.IsNumber(text) then Some(W.Number(text)) else None
                        else if ValidUtf8(text) then Some(W.Str(text)) else None, old(sent), old(depth), sent, depth)
    {
      if number {
        ok := Numbers.ScanNumber(text);
        if ok {
          Send(ENumber(text));
        }
      } else {
        ok := ValidUtf8(text);
        if ok {
          Send(EText(text));
        }
      }
    }

    method WriteAny(x: Data) returns (ok: bool)
      requires Legal() && HasType(x, TAny)
      modifies this
      ensures Wrote(ok, EncodeAny(x, old(depth)), old(sent), old(depth), sent, depth)
      decreases x, 1
    {
      if x.Nil? {
        Send(ENull);
        return true;
      }
      if x.ty != TSlice(TAny) && x.ty != TMap(KeyString, TAny) {
        ok := Write(x.ty, x.data);
        return;
      }
      depth := depth + 1;
      if depth > W.MAX_DEPTH {
        depth := depth - 1;
        return false;
      }
      if x.ty.TSlice? {
        ok := WriteSlice(TAny, x.data, true);
      } else {
        ok := WriteMap(KeyString, TAny, x.data, true);
      }
      depth := depth - 1;
    }

    method Write(ty: Type, v: Data) returns (ok: bool)
      requires Legal() && HasType(v, ty)
      modifies this
      ensures Wrote(ok, Encode(ty, v, old(depth)), old(sent), old(depth), sent, depth)
      decreases v, 2
    {
      depth := depth + 1;
      if depth > W.MAX_DEPTH {
        depth := depth - 1;
        return false;
      }
      match ty {
      case TBool =>
        Send(EBool(v.flag));
        ok := true;
      case TInt(_) =>
        Send(ENumber(FormatInt(v.num)));
        ok := true;
      case TString => ok := WriteText(v.text, false);
      case TNumber => ok := WriteText(v.text, true);
      case TPtr(e) =>
        if v.Nil? {
          Send(ENull);
          ok := true;
        } else {
          depth := depth - 1;
          ok := Write(e, v.to);
          depth := depth + 1;
        }
      case TAny =>
        depth := depth - 1;
        ok := WriteAny(v);
        depth := depth + 1;
      case TSlice(e) =>
        if e == UINT8 {
          Send(EBytes(if v.Nil? then [] else v.body));
          ok := true;
        } else {
          ok := WriteSlice(e, v, false);
        }
      case TArray(_, e) =>
        ok := WriteList(v.items, e, false);
      case TMap(kt, e) => ok := WriteMap(kt, e, v, false);
      case TStruct(fs) => ok := WriteRecord(v.fields, fs);
      }
      depth := depth - 1;
    }
  
    /** e.list, and writeAny's loop over a []any. */
    method WriteList(vs: seq<Data>, e: Type, fast: bool) returns (ok: bool)
      requires Legal() && AllHaveType(vs, e) && (fast ==> e == TAny)
      modifies this
      ensures Wrote(ok, AsList(EncodeItems(vs, e, old(depth), fast)), old(sent), old(depth), sent, depth)
      decreases vs, 0
    {
      hide HasType, Encode, EncodeAny, EncodeItems, OpenAfter, EventsOf, NoAbsent;
      ghost var done := [];
      ghost var start := sent + [EList(|vs|)];
      ghost var all := EncodeItems(vs, e, depth, fast);
      Send(EList(|vs|));
      ghost var open := OpenAfter(0, sent);
      assert vs[0..] == vs;
      for i := 0 to |vs|
        invariant OpenAfter(0, sent) == open && depth == old(depth)
        invariant AllHaveType(vs[i..], e)
        invariant AllNoAbsent(done) && sent == start + ItemEvents(done)
        invariant all == After(done, EncodeItems(vs[i..], e, depth, fast))
      {
        ItemsStep(vs, i, e, depth, fast);
        ghost var t := One(e, vs[i], depth, fast);
        ghost var before := sent;
        ok := WriteOne(e, vs[i], fast);
        if !ok {
          return;
        }
        TreeSent(before, t.value);
        ItemSent(done, t.value);
        AfterOne(done, t.value, EncodeItems(vs[i + 1..], e, depth, fast));
        done := done + [t.value];
      }
      NoItems(vs[|vs|..], e, depth, fast);
      Send(EEnd);
      ListSent(old(sent), done);
      return true;
    }

    method WriteOne(e: Type, v: Data, fast: bool) returns (ok: bool)
      requires Legal() && HasType(v, e) && (fast ==> e == TAny)
      modifies this
      ensures Wrote(ok, One(e, v, old(depth), fast), old(sent), old(depth), sent, depth)
      decreases v, 3
    {
      if fast {
        ok := WriteAny(v);
      } else {
        ok := Write(e, v);
      }
    }

    /** e.entry: the key, checked, then what is written under it. */
    method WriteEntry(key: Text, e: Type, v: Data, fast: bool) returns (ok: bool)
      requires Legal() && OpenAfter(0, sent).value > 0 && HasType(v, e) && (fast ==> e == TAny)
      modifies this
      ensures Legal() && depth == old(depth)
      ensures ok == (ValidUtf8(key) && One(e, v, old(depth), fast).Some?)
      ensures ok ==> var t := One(e, v, old(depth), fast).value;
        NoAbsent(t) && sent == old(sent) + ([EKey(key)] + EventsOf(t)) && OpenAfter(0, sent) == OpenAfter(0, old(sent))
      decreases v, 4
    {
      if !ValidUtf8(key) {
        return false;
      }
      Send(EKey(key));
      ghost var keyed := sent;
      ok := WriteOne(e, v, fast);
      if ok {
        TreeSent(keyed, One(e, v, depth, fast).value);
      }
    }

    method WriteSlice(e: Type, v: Data, fast: bool) returns (ok: bool)
      requires Legal() && HasType(v, TSlice(e)) && e != UINT8 && (fast ==> e == TAny) && depth > 0
      modifies this
      ensures Wrote(ok, EncodeSlice(e, v, old(depth) - 1, fast), old(sent), old(depth), sent, depth)
      decreases v, 1
    {
      if v.Nil? {
        Send(EList(0));
        Send(EEnd);
        return true;
      }
      ok := WriteList(v.items, e, fast);
    }

    /** e.mapOf, and writeAny's loop over a map[string]any: the keys sorted first. */
    method WriteMap(kt: KeyType, e: Type, v: Data, fast: bool) returns (ok: bool)
      requires Legal() && HasType(v, TMap(kt, e)) && (fast ==> e == TAny) && depth > 0
      modifies this
      ensures Wrote(ok, EncodeMap(kt, e, v, old(depth) - 1, fast), old(sent), old(depth), sent, depth)
      decreases v, 1
    {
      if v.Nil? {
        Send(EMap(0));
        Send(EEnd);
        return true;
      }
      var ks := Sort(v.dict.Keys);
      SortedOnce(v.dict.Keys, ks);
      ok := WriteEntries(kt, e, v, ks, fast);
    }

    method WriteEntries(kt: KeyType, e: Type, v: Data, ks: seq<Key>, fast: bool) returns (ok: bool)
      requires Legal() && HasType(v, TMap(kt, e)) && v.Dict? && (fast ==> e == TAny)
      requires forall i :: 0 <= i < |ks| ==> ks[i] in v.dict
      modifies this
      ensures Wrote(ok, AsMap(EncodeDict(v, kt, e, ks, old(depth), fast)), old(sent), old(depth), sent, depth)
      decreases v, 0
    {
      hide HasType, Encode, EncodeAny, EncodeDict, OpenAfter, EventsOf, NoAbsent, ValidUtf8, KeyText, After,
        EntryEvents;
      ValuesHaveType(v, kt, e);
      NothingSent(sent + [EMap(|ks|)]);
      ghost var done := [];
      ghost var start := sent + [EMap(|ks|)];
      ghost var all := EncodeDict(v, kt, e, ks, depth, fast);
      Send(EMap(|ks|));
      ghost var open := OpenAfter(0, sent);
      assert ks[0..] == ks;
      for i := 0 to |ks|
        invariant OpenAfter(0, sent) == open && depth == old(depth)
        invariant NoneAbsent(done) && sent == start + EntryEvents(done)
        invariant all == After(done, EncodeDict(v, kt, e, ks[i..], depth, fast))
      {
        var k := ks[i];
        DictStep(v, kt, e, ks, i, depth, fast);
        ghost var t := One(e, v.dict[k], depth, fast);
        ok := WriteEntry(KeyText(k), e, v.dict[k], fast);
        if !ok {
          return;
        }
        ghost var entry := W.Entry(KeyText(k), t.value);
        EntrySent(start, done, entry);
        AfterOne(done, entry, EncodeDict(v, kt, e, ks[i + 1..], depth, fast));
        done := done + [entry];
      }
      NoKeys(v, kt, e, ks[|ks|..], depth, fast);
      Send(EEnd);
      MapSent(old(sent), done);
      return true;
    }

    /** e.record: the fields written counted, then each under its name. */
    method WriteRecord(vs: seq<Data>, fs: seq<Field>) returns (ok: bool)
      requires Legal() && FieldsHaveType(vs, fs)
      modifies this
      ensures Wrote(ok, AsMap(EncodeFields(vs, fs, 0, old(depth))), old(sent), old(depth), sent, depth)
      decreases vs, 1
    {
      var n := 0;
      for k := 0 to |fs|
        invariant sent == old(sent) && depth == old(depth)
        invariant n + Written(vs, fs, k) == Written(vs, fs, 0)
      {
        var left := IsOmitted(fs[k], vs[k]);
        if !left {
          n := n + 1;
        }
      }
      ok := WriteFields(vs, fs, n);
    }

    method WriteFields(vs: seq<Data>, fs: seq<Field>, n: nat) returns (ok: bool)
      requires Legal() && FieldsHaveType(vs, fs) && n == Written(vs, fs, 0)
      modifies this
      ensures Wrote(ok, AsMap(EncodeFields(vs, fs, 0, old(depth))), old(sent), old(depth), sent, depth)
      decreases vs, 0
    {
      hide HasType, Encode, EncodeFields, OpenAfter, Omitted, EventsOf, NoAbsent;
      ghost var done := [];
      ghost var start := sent + [EMap(n)];
      ghost var all := EncodeFields(vs, fs, 0, depth);
      Send(EMap(n));
      ghost var open := OpenAfter(0, sent);
      for k := 0 to |fs|
        invariant OpenAfter(0, sent) == open && depth == old(depth)
        invariant NoneAbsent(done) && sent == start + EntryEvents(done)
        invariant all == After(done, EncodeFields(vs, fs, k, depth))
      {
        FieldsStep(vs, fs, k, depth);
        var left := IsOmitted(fs[k], vs[k]);
        if !left {
          ghost var t := Encode(fs[k].ty, vs[k], depth);
          ok := WriteEntry(fs[k].name, fs[k].ty, vs[k], false);
          if !ok {
            return;
          }
          ghost var entry := W.Entry(fs[k].name, t.value);
          EntrySent(start, done, entry);
          AfterOne(done, entry, EncodeFields(vs, fs, k + 1, depth));
          done := done + [entry];
        }
      }
      NoFields(vs, fs, depth);
      Send(EEnd);
      MapSent(old(sent), done);
      return true;
    }
  }

  ghost function One(e: Type, v: Data, depth: nat, fast: bool): Option<W.Tree>
    requires HasType(v, e) && (fast ==> e == TAny)
  {
    if fast then EncodeAny(v, depth) else Encode(e, v, depth)
  }

  ghost function Joined<T>(one: T, rest: Option<seq<T>>): Option<seq<T>> {
    if rest.Some? then Some([one] + rest.value) else None
  }

  lemma ItemsStep(vs: seq<Data>, i: nat, e: Type, depth: nat, fast: bool)
    requires i < |vs| && AllHaveType(vs[i..], e) && (fast ==> e == TAny)
    ensures HasType(vs[i], e) && AllHaveType(vs[i + 1..], e)
    ensures EncodeItems(vs[i..], e, depth, fast)
         == match One(e, vs[i], depth, fast)
            case None => None
            case Some(t) => Joined(t, EncodeItems(vs[i + 1..], e, depth, fast))
  {
    hide HasType, Encode, EncodeAny;
    assert vs[i..][0] == vs[i] && vs[i..][1..] == vs[i + 1..];
  }

  lemma NoItems(vs: seq<Data>, e: Type, depth: nat, fast: bool)
    requires vs == [] && (fast ==> e == TAny)
    ensures EncodeItems(vs, e, depth, fast) == Some([])
  {
  }

  lemma ValuesHaveType(v: Data, kt: KeyType, e: Type)
    requires HasType(v, TMap(kt, e)) && v.Dict?
    ensures forall k :: k in v.dict ==> HasType(v.dict[k], e)
  {
  }

  lemma DictStep(v: Data, kt: KeyType, e: Type, ks: seq<Key>, i: nat, depth: nat, fast: bool)
    requires HasType(v, TMap(kt, e)) && v.Dict? && (fast ==> e == TAny)
    requires i < |ks| && forall j :: 0 <= j < |ks| ==> ks[j] in v.dict
    ensures HasType(v.dict[ks[i]], e)
    ensures EncodeDict(v, kt, e, ks[i..], depth, fast)
         == if !ValidUtf8(KeyText(ks[i])) then None
            else match One(e, v.dict[ks[i]], depth, fast)
            case None => None
            case Some(t) => Joined(W.Entry(KeyText(ks[i]), t), EncodeDict(v, kt, e, ks[i + 1..], depth, fast))
  {
    ValuesHaveType(v, kt, e);
    hide HasType, Encode, EncodeAny;
    assert ks[i..][0] == ks[i] && ks[i..][1..] == ks[i + 1..];
  }

  lemma NoKeys(v: Data, kt: KeyType, e: Type, ks: seq<Key>, depth: nat, fast: bool)
    requires HasType(v, TMap(kt, e)) && v.Dict? && (fast ==> e == TAny) && ks == []
    ensures EncodeDict(v, kt, e, ks, depth, fast) == Some([])
  {
  }

  lemma FieldsStep(vs: seq<Data>, fs: seq<Field>, k: nat, depth: nat)
    requires FieldsHaveType(vs, fs) && k < |fs|
    ensures HasType(vs[k], fs[k].ty)
    ensures EncodeFields(vs, fs, k, depth)
         == if Omitted(fs[k], vs[k]) then EncodeFields(vs, fs, k + 1, depth)
            else if !ValidUtf8(fs[k].name) then None
            else match Encode(fs[k].ty, vs[k], depth)
            case None => None
            case Some(t) => Joined(W.Entry(fs[k].name, t), EncodeFields(vs, fs, k + 1, depth))
  {
    hide HasType, Encode, Omitted;
  }

  lemma NoFields(vs: seq<Data>, fs: seq<Field>, depth: nat)
    requires FieldsHaveType(vs, fs)
    ensures EncodeFields(vs, fs, |fs|, depth) == Some([])
  {
  }

  /** The whole is what is done and what is still to come. */
  ghost function After<T>(done: seq<T>, rest: Option<seq<T>>): (all: Option<seq<T>>)
    ensures done == [] ==> all == rest
    ensures rest == Some([]) ==> all == Some(done)
    ensures rest.None? ==> all.None?
  {
    match rest
    case None => None
    case Some(ts) =>
      assert [] + ts == ts && done + [] == done;
      Some(done + ts)
  }

  lemma AfterOne<T>(done: seq<T>, one: T, rest: Option<seq<T>>)
    ensures After(done, Joined(one, rest)) == After(done + [one], rest)
  {
    if rest.Some? { assert done + ([one] + rest.value) == (done + [one]) + rest.value; }
  }

  lemma ListSent(sent: seq<Event>, ts: seq<W.Tree>)
    requires AllNoAbsent(ts)
    ensures NoAbsent(W.List(ts))
    ensures sent + [EList(|ts|)] + ItemEvents(ts) + [EEnd] == sent + EventsOf(W.List(ts))
  {
    Around(sent, [EList(|ts|)], ItemEvents(ts), [EEnd]);
  }

  lemma Around<T>(a: seq<T>, b: seq<T>, c: seq<T>, d: seq<T>)
    ensures a + b + c + d == a + (b + c + d)
  {
  }

  lemma MapSent(sent: seq<Event>, es: seq<W.Entry>)
    requires NoneAbsent(es)
    ensures NoAbsent(W.Map(es))
    ensures sent + [EMap(|es|)] + EntryEvents(es) + [EEnd] == sent + EventsOf(W.Map(es))
  {
    Around(sent, [EMap(|es|)], EntryEvents(es), [EEnd]);
  }

  lemma NothingSent(start: seq<Event>)
    ensures NoneAbsent([]) && start == start + EntryEvents([])
  {
  }

  lemma TreeSent(before: seq<Event>, t: W.Tree)
    requires OpenAfter(0, before).Some? && NoAbsent(t)
    ensures OpenAfter(0, before + EventsOf(t)) == OpenAfter(0, before)
  {
    OpenAfterBoth(0, before, EventsOf(t));
    TreesBalance(t, OpenAfter(0, before).value);
  }

  lemma {:induction false} ItemSent(done: seq<W.Tree>, t: W.Tree)
    requires AllNoAbsent(done) && NoAbsent(t)
    ensures AllNoAbsent(done + [t]) && ItemEvents(done + [t]) == ItemEvents(done) + EventsOf(t)
  {
    if done != [] {
      assert (done + [t])[1..] == done[1..] + [t];
      ItemSent(done[1..], t);
    }
  }

  lemma {:induction false} EntryAdded(done: seq<W.Entry>, e: W.Entry)
    requires NoneAbsent(done) && NoAbsent(e.value)
    ensures NoneAbsent(done + [e])
    ensures EntryEvents(done + [e]) == EntryEvents(done) + ([EKey(e.key)] + EventsOf(e.value))
  {
    if done != [] {
      assert (done + [e])[1..] == done[1..] + [e];
      EntryAdded(done[1..], e);
    }
  }

  lemma EntrySent(start: seq<Event>, done: seq<W.Entry>, e: W.Entry)
    requires NoneAbsent(done) && NoAbsent(e.value)
    ensures NoneAbsent(done + [e])
    ensures start + EntryEvents(done) + ([EKey(e.key)] + EventsOf(e.value)) == start + EntryEvents(done + [e])
  {
    EntryAdded(done, e);
    var a, b := EntryEvents(done), [EKey(e.key)] + EventsOf(e.value);
    assert start + a + b == start + (a + b);
  }

  method IsOmitted(f: Field, v: Data) returns (left: bool)
    requires HasType(v, f.ty)
    ensures left == Omitted(f, v)
  {
    if f.ty.TPtr? && v.Nil? {
      return true;
    }
    if !f.omitEmpty {
      return false;
    }
    if f.ty.TSlice? {
      return v.Nil? || (if f.ty.elem == UINT8 then v.body == [] else v.items == []);
    }
    if f.ty.TMap? {
      return v.Nil? || v.dict == map[];
    }
    if f.ty.TArray? {
      return f.ty.length == 0;
    }
    left := CheckZero(v, f.ty);
  }

  method CheckZero(v: Data, ty: Type) returns (zero: bool)
    requires HasType(v, ty)
    ensures zero == IsZero(v, ty)
    decreases v
  {
    match ty
    case TBool => zero := !v.flag;
    case TInt(_) => zero := v.num == 0;
    case TString => zero := v.text == [];
    case TNumber => zero := v.text == [];
    case TArray(_, e) =>
      for i := 0 to |v.items|
        invariant forall j :: 0 <= j < i ==> IsZero(v.items[j], e)
      {
        zero := CheckZero(v.items[i], e);
        if !zero {
          return;
        }
      }
      zero := true;
    case TStruct(fs) =>
      for i := 0 to |fs|
        invariant forall j :: 0 <= j < i ==> IsZero(v.fields[j], fs[j].ty)
      {
        zero := CheckZero(v.fields[i], fs[i].ty);
        if !zero {
          return;
        }
      }
      zero := true;
    case _ => zero := v.Nil?;
  }
}
