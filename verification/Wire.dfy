/** A value as bytes: what an ordered tree is written as, and the one tree any
    accepted bytes hold. */
module Wire {
  import opened Texts
  import opened Numbers

  const MAX_DEPTH: nat := 128
  const MAX_INT: nat := 0x7FFF_FFFF_FFFF_FFFF

  datatype Tree =
    | Absent
    | Null
    | Bool(flag: bool)
    | Number(text: Text)
    | Str(text: Text)
    | Bytes(body: Text)
    | List(items: seq<Tree>)
    | Map(entries: seq<Entry>)

  datatype Entry = Entry(key: Text, value: Tree)

  /** Setting a key: the value already under it is replaced where it stands, a new one goes last. */
  function SetEntry(entries: seq<Entry>, key: Text, value: Tree): seq<Entry> {
    if entries == [] then [Entry(key, value)]
    else if entries[0].key == key then [Entry(key, value)] + entries[1..]
    else [entries[0]] + SetEntry(entries[1..], key, value)
  }

  const ABSENT: Byte := 0
  const NULL: Byte := 1
  const BOOL: Byte := 2
  const NUMBER: Byte := 3
  const STRING: Byte := 4
  const BYTES: Byte := 5
  const LIST: Byte := 6
  const MAP: Byte := 7

  /** What a read of the head of some bytes answers: a value and the bytes left. */
  datatype Step<+T> = Refused | Read(value: T, rest: Text)

  // --- counts: unsigned LEB128, section 7.6 of DWARF 5 -----------------------------

  function Leb(n: nat): (s: Text)
    ensures s != []
  {
    if n < 0x80 then [n] else [n % 0x80 + 0x80] + Leb(n / 0x80)
  }

  /** The shortest LEB128 at the head of s; first says no byte came before. */
  ghost function UnLeb(s: Text, first: bool): (r: Step<nat>)
    ensures r.Read? ==> |r.rest| < |s|
  {
    if s == [] then Refused
    else if s[0] < 0x80 then
      if s[0] == 0 && !first then Refused else Read(s[0], s[1..])
    else match UnLeb(s[1..], false)
      case Refused => Refused
      case Read(high, rest) => Read(s[0] - 0x80 + 0x80 * high, rest)
  }

  ghost function Count(s: Text): (r: Step<nat>)
    ensures r.Read? ==> |r.rest| < |s|
  {
    match UnLeb(s, true)
    case Refused => Refused
    case Read(n, rest) => if n <= MAX_INT then Read(n, rest) else Refused
  }

  lemma {:induction false} LebReads(n: nat, rest: Text, first: bool)
    requires first || n > 0
    ensures UnLeb(Leb(n) + rest, first) == Read(n, rest)
  {
    if n >= 0x80 {
      LebReads(n / 0x80, rest, false);
      assert (Leb(n) + rest)[1..] == Leb(n / 0x80) + rest;
    }
  }

  lemma {:induction false} ReadIsLeb(s: Text, first: bool)
    requires UnLeb(s, first).Read?
    ensures var r := UnLeb(s, first); s == Leb(r.value) + r.rest && (first || r.value > 0)
  {
    if s[0] >= 0x80 {
      ReadIsLeb(s[1..], false);
    }
  }

  /** A count is accepted exactly in its shortest form, and up to MAX_INT. */
  lemma CountIsShortest(s: Text, n: nat, rest: Text)
    ensures Count(s) == Read(n, rest) <==> n <= MAX_INT && s == Leb(n) + rest
  {
    if Count(s).Read? {
      ReadIsLeb(s, true);
    }
    if s == Leb(n) + rest {
      LebReads(n, rest, true);
    }
  }

  // --- what a tree is written as -------------------------------------------------

  function Sized(body: Text): Text {
    Leb(|body|) + body
  }

  function Enc(t: Tree): (s: Text)
    ensures s != []
    decreases t, 1
  {
    match t
    case Absent => [ABSENT]
    case Null => [NULL]
    case Bool(b) => [BOOL, if b then 1 else 0]
    case Number(text) => [NUMBER] + Sized(text)
    case Str(text) => [STRING] + Sized(text)
    case Bytes(body) => [BYTES] + Sized(body)
    case List(items) => [LIST] + Leb(|items|) + EncItems(items)
    case Map(entries) => [MAP] + Leb(|entries|) + EncEntries(entries)
  }

  function EncItems(items: seq<Tree>): Text
    decreases items, 0
  {
    if items == [] then [] else Enc(items[0]) + EncItems(items[1..])
  }

  function EncEntries(entries: seq<Entry>): Text
    decreases entries, 0
  {
    if entries == [] then []
    else Sized(entries[0].key) + Enc(entries[0].value) + EncEntries(entries[1..])
  }

  /** Every leaf of t is one a tree can hold, and no length is past an int. */
  ghost predicate WellFormed(t: Tree) {
    match t
    case Number(text) => |text| <= MAX_INT && IsNumber(text)
    case Str(text) => |text| <= MAX_INT && ValidUtf8(text)
    case Bytes(body) => |body| <= MAX_INT
    case List(items) => |items| <= MAX_INT && forall i :: 0 <= i < |items| ==> WellFormed(items[i])
    case Map(entries) => |entries| <= MAX_INT && forall i :: 0 <= i < |entries| ==> WellFormedEntry(entries[i])
    case _ => true
  }

  ghost predicate WellFormedEntry(e: Entry) {
    |e.key| <= MAX_INT && ValidUtf8(e.key) && WellFormed(e.value)
  }

  // --- what bytes hold -------------------------------------------------------------

  ghost function UnSized(s: Text): (r: Step<Text>)
    ensures r.Read? ==> |r.rest| < |s|
  {
    match Count(s)
    case Refused => Refused
    case Read(n, rest) => if n <= |rest| then Read(rest[..n], rest[n..]) else Refused
  }

  ghost function UnText(s: Text): (r: Step<Text>)
    ensures r.Read? ==> |r.rest| < |s|
  {
    match UnSized(s)
    case Refused => Refused
    case Read(text, rest) => if ValidUtf8(text) then Read(text, rest) else Refused
  }

  ghost predicate IsLeafTag(tag: Byte) {
    tag <= BYTES
  }

  /** The leaf whose tag was just read. */
  ghost function ParseLeaf(tag: Byte, s: Text): (r: Step<Tree>)
    requires IsLeafTag(tag)
    ensures r.Read? ==> |r.rest| <= |s|
  {
    if tag == ABSENT then Read(Absent, s)
    else if tag == NULL then Read(Null, s)
    else if tag == BOOL then
      if s == [] || s[0] > 1 then Refused else Read(Bool(s[0] == 1), s[1..])
    else if tag == STRING then
      match UnText(s) case Refused => Refused case Read(text, rest) => Read(Str(text), rest)
    else match UnSized(s)
      case Refused => Refused
      case Read(body, rest) =>
        if tag == BYTES then Read(Bytes(body), rest)
        else if IsNumber(body) then Read(Number(body), rest)
        else Refused
  }

  /** The tree at the head of s: every rule of the wire format but the one against
      a repeated key, and no limit on nesting. */
  ghost function Parse(s: Text): (r: Step<Tree>)
    ensures r.Read? ==> |r.rest| < |s|
    decreases |s|, 0
  {
    if s == [] || s[0] > MAP then Refused
    else if IsLeafTag(s[0]) then ParseLeaf(s[0], s[1..])
    else match Count(s[1..])
      case Refused => Refused
      case Read(n, body) =>
        if s[0] == LIST then
          match ParseItems(body, n) case Refused => Refused case Read(items, rest) => Read(List(items), rest)
        else
          match ParseEntries(body, n) case Refused => Refused case Read(entries, rest) => Read(Map(entries), rest)
  }

  ghost function ParseItems(s: Text, n: nat): (r: Step<seq<Tree>>)
    ensures r.Read? ==> |r.value| == n && |r.rest| + n <= |s|
    decreases |s|, 1
  {
    if n == 0 then Read([], s)
    else match Parse(s)
      case Refused => Refused
      case Read(item, more) =>
        match ParseItems(more, n - 1)
        case Refused => Refused
        case Read(items, rest) => Read([item] + items, rest)
  }

  ghost function ParseEntry(s: Text): (r: Step<Entry>)
    ensures r.Read? ==> |r.rest| < |s|
    decreases |s|, 1
  {
    match UnText(s)
    case Refused => Refused
    case Read(key, more) =>
      match Parse(more) case Refused => Refused case Read(value, rest) => Read(Entry(key, value), rest)
  }

  ghost function ParseEntries(s: Text, n: nat): (r: Step<seq<Entry>>)
    ensures r.Read? ==> |r.value| == n && |r.rest| + n <= |s|
    decreases |s|, 2
  {
    if n == 0 then Read([], s)
    else match ParseEntry(s)
      case Refused => Refused
      case Read(entry, more) =>
        match ParseEntries(more, n - 1)
        case Refused => Refused
        case Read(entries, rest) => Read([entry] + entries, rest)
  }

  // --- the encoding reads back ---------------------------------------------------

  lemma SizedReads(body: Text, rest: Text)
    requires |body| <= MAX_INT
    ensures UnSized(Sized(body) + rest) == Read(body, rest)
  {
    assert Sized(body) + rest == Leb(|body|) + (body + rest);
    LebReads(|body|, body + rest, true);
  }

  lemma {:induction false} EncReads(t: Tree, rest: Text)
    requires WellFormed(t)
    ensures Parse(Enc(t) + rest) == Read(t, rest)
    decreases t, 1
  {
    var s := Enc(t) + rest;
    match t
    case Absent => assert s[1..] == rest;
    case Null => assert s[1..] == rest;
    case Bool(b) => assert s[1..][1..] == rest;
    case Number(text) =>
      assert s[1..] == Sized(text) + rest;
      SizedReads(text, rest);
    case Str(text) =>
      assert s[1..] == Sized(text) + rest;
      SizedReads(text, rest);
    case Bytes(body) =>
      assert s[1..] == Sized(body) + rest;
      SizedReads(body, rest);
    case List(items) => ListEncReads(t, rest);
    case Map(entries) => MapEncReads(t, rest);
  }

  lemma {:induction false} ListEncReads(t: Tree, rest: Text)
    requires WellFormed(t) && t.List?
    ensures Parse(Enc(t) + rest) == Read(t, rest)
    decreases t, 0
  {
    var s, items := Enc(t) + rest, t.items;
    assert s[1..] == Leb(|items|) + (EncItems(items) + rest);
    LebReads(|items|, EncItems(items) + rest, true);
    ItemsRead(items, rest);
  }

  lemma {:induction false} MapEncReads(t: Tree, rest: Text)
    requires WellFormed(t) && t.Map?
    ensures Parse(Enc(t) + rest) == Read(t, rest)
    decreases t, 0
  {
    var s, entries := Enc(t) + rest, t.entries;
    assert s[1..] == Leb(|entries|) + (EncEntries(entries) + rest);
    LebReads(|entries|, EncEntries(entries) + rest, true);
    EntriesRead(entries, rest);
  }

  lemma {:induction false} ItemsRead(items: seq<Tree>, rest: Text)
    requires forall i :: 0 <= i < |items| ==> WellFormed(items[i])
    ensures ParseItems(EncItems(items) + rest, |items|) == Read(items, rest)
    decreases items, 0
  {
    if items != [] {
      assert EncItems(items) + rest == Enc(items[0]) + (EncItems(items[1..]) + rest);
      EncReads(items[0], EncItems(items[1..]) + rest);
      ItemsRead(items[1..], rest);
      assert [items[0]] + items[1..] == items;
    } else {
      assert EncItems(items) + rest == rest;
    }
  }

  lemma {:induction false} EntriesRead(entries: seq<Entry>, rest: Text)
    requires forall i :: 0 <= i < |entries| ==> WellFormedEntry(entries[i])
    ensures ParseEntries(EncEntries(entries) + rest, |entries|) == Read(entries, rest)
    decreases entries, 0
  {
    if entries != [] {
      var e, more := entries[0], EncEntries(entries[1..]) + rest;
      assert EncEntries(entries) + rest == Sized(e.key) + (Enc(e.value) + more);
      SizedReads(e.key, Enc(e.value) + more);
      EncReads(e.value, more);
      EntriesRead(entries[1..], rest);
      assert [e] + entries[1..] == entries;
    } else {
      assert EncEntries(entries) + rest == rest;
    }
  }

  // --- and nothing else does -----------------------------------------------------

  lemma ReadIsSized(s: Text)
    requires UnSized(s).Read?
    ensures var r := UnSized(s); s == Sized(r.value) + r.rest && |r.value| <= MAX_INT
  {
    ReadIsLeb(s, true);
  }

  lemma LeafIsEnc(tag: Byte, s: Text)
    requires IsLeafTag(tag) && ParseLeaf(tag, s).Read?
    ensures var r := ParseLeaf(tag, s); [tag] + s == Enc(r.value) + r.rest && WellFormed(r.value)
  {
    var r := ParseLeaf(tag, s);
    if tag in [NUMBER, STRING, BYTES] {
      ReadIsSized(s);
      assert [tag] + s == ([tag] + Sized(UnSized(s).value)) + r.rest;
    } else if tag == BOOL {
      assert [tag] + s == [tag, s[0]] + s[1..];
    }
  }

  lemma ContainerIsEnc(tag: Byte, n: nat, t: Tree, rest: Text)
    requires t.List? || t.Map?
    requires t.List? ==> tag == LIST && n == |t.items|
    requires t.Map? ==> tag == MAP && n == |t.entries|
    ensures [tag] + (Leb(n) + ((if t.List? then EncItems(t.items) else EncEntries(t.entries)) + rest)) == Enc(t) + rest
  {
  }

  lemma ItemsJoin(head: Tree, tail: seq<Tree>, rest: Text)
    ensures Enc(head) + (EncItems(tail) + rest) == EncItems([head] + tail) + rest
  {
    assert ([head] + tail)[1..] == tail;
  }

  lemma EntriesJoin(head: Entry, tail: seq<Entry>, rest: Text)
    ensures Sized(head.key) + Enc(head.value) + (EncEntries(tail) + rest) == EncEntries([head] + tail) + rest
  {
    assert ([head] + tail)[1..] == tail;
  }

  lemma {:induction false} ReadIsEnc(s: Text)
    requires Parse(s).Read?
    ensures var r := Parse(s); s == Enc(r.value) + r.rest && WellFormed(r.value)
    decreases |s|, 0
  {
    var tag, body, r := s[0], s[1..], Parse(s);
    assert s == [tag] + body;
    if IsLeafTag(tag) {
      LeafIsEnc(tag, body);
    } else {
      ReadIsLeb(body, true);
      var n := Count(body);
      if tag == LIST {
        ItemsAreEnc(n.rest, n.value);
      } else {
        EntriesAreEnc(n.rest, n.value);
      }
      ContainerIsEnc(tag, n.value, r.value, r.rest);
    }
  }

  lemma {:induction false} ItemsAreEnc(s: Text, n: nat)
    requires ParseItems(s, n).Read?
    ensures var r := ParseItems(s, n); s == EncItems(r.value) + r.rest
    ensures var items := ParseItems(s, n).value; forall i :: 0 <= i < |items| ==> WellFormed(items[i])
    decreases |s|, 1
  {
    if n > 0 {
      hide Parse, Enc, EncItems, WellFormed;
      var head := Parse(s);
      var tail := ParseItems(head.rest, n - 1);
      ReadIsEnc(s);
      ItemsAreEnc(head.rest, n - 1);
      ItemsJoin(head.value, tail.value, tail.rest);
      var all := ParseItems(s, n);
      assert s == EncItems(all.value) + all.rest;
      assert forall i :: 0 <= i < |all.value| ==> WellFormed(all.value[i]);
    }
  }

  lemma {:induction false} EntryIsEnc(s: Text)
    requires ParseEntry(s).Read?
    ensures var r := ParseEntry(s); s == Sized(r.value.key) + Enc(r.value.value) + r.rest && WellFormedEntry(r.value)
    decreases |s|, 1
  {
    hide Parse, Enc, Sized, WellFormed, UnSized, ValidUtf8;
    ReadIsSized(s);
    ReadIsEnc(UnText(s).rest);
    Regroup(Sized(UnText(s).value), Enc(Parse(UnText(s).rest).value), ParseEntry(s).rest);
  }

  lemma {:induction false} EntriesAreEnc(s: Text, n: nat)
    requires ParseEntries(s, n).Read?
    ensures var r := ParseEntries(s, n); s == EncEntries(r.value) + r.rest
    ensures var entries := ParseEntries(s, n).value; forall i :: 0 <= i < |entries| ==> WellFormedEntry(entries[i])
    decreases |s|, 2
  {
    if n > 0 {
      hide ParseEntry, Enc, EncEntries, WellFormedEntry, Sized;
      var head := ParseEntry(s);
      var tail := ParseEntries(head.rest, n - 1);
      EntryIsEnc(s);
      EntriesAreEnc(head.rest, n - 1);
      EntriesJoin(head.value, tail.value, tail.rest);
      var all := ParseEntries(s, n);
      assert s == EncEntries(all.value) + all.rest;
      assert forall i :: 0 <= i < |all.value| ==> WellFormedEntry(all.value[i]);
    }
  }

  /** Bytes are read as a tree and a rest exactly when they are that tree's one
      encoding followed by that rest: a round trip, and no second spelling. */
  lemma WireIsCanonical(s: Text, t: Tree, rest: Text)
    ensures Parse(s) == Read(t, rest) <==> WellFormed(t) && s == Enc(t) + rest
  {
    if Parse(s).Read? {
      ReadIsEnc(s);
    }
    if WellFormed(t) && s == Enc(t) + rest {
      EncReads(t, rest);
    }
  }

  // --- nesting -------------------------------------------------------------------

  /** Every node of t, t itself at depth, lies within MAX_DEPTH. */
  ghost predicate Fits(t: Tree, depth: nat) {
    depth <= MAX_DEPTH
    && match t
       case List(items) => forall i :: 0 <= i < |items| ==> Fits(items[i], depth + 1)
       case Map(entries) => forall i :: 0 <= i < |entries| ==> Fits(entries[i].value, depth + 1)
       case _ => true
  }

  /** No container of t with something in it, t itself at depth, lies at or past
      MAX_DEPTH: what skip checks. */
  ghost predicate Nests(t: Tree, depth: nat) {
    match t
    case List(items) =>
      items == [] || (depth < MAX_DEPTH && forall i :: 0 <= i < |items| ==> Nests(items[i], depth + 1))
    case Map(entries) =>
      entries == [] || (depth < MAX_DEPTH && forall i :: 0 <= i < |entries| ==> Nests(entries[i].value, depth + 1))
    case _ => true
  }

  /** From a depth within the limit the two rules are one. */
  lemma {:induction false} NestsIsFits(t: Tree, depth: nat)
    requires depth <= MAX_DEPTH
    ensures Nests(t, depth) <==> Fits(t, depth)
  {
    if depth < MAX_DEPTH {
      match t
      case List(items) =>
        forall i | 0 <= i < |items| ensures Nests(items[i], depth + 1) <==> Fits(items[i], depth + 1) {
          NestsIsFits(items[i], depth + 1);
        }
      case Map(entries) =>
        forall i | 0 <= i < |entries| ensures Nests(entries[i].value, depth + 1) <==>
          Fits(entries[i].value, depth + 1) {
          NestsIsFits(entries[i].value, depth + 1);
        }
      case _ =>
    } else {
      match t
      case List(items) => assert items != [] ==> !Fits(items[0], depth + 1);
      case Map(entries) => assert entries != [] ==> !Fits(entries[0].value, depth + 1);
      case _ =>
    }
  }

  /** No map of t holds one key twice. */
  ghost predicate DistinctKeys(t: Tree) {
    match t
    case List(items) => forall i :: 0 <= i < |items| ==> DistinctKeys(items[i])
    case Map(entries) =>
      (forall i, j :: 0 <= i < j < |entries| ==> entries[i].key != entries[j].key)
      && forall i :: 0 <= i < |entries| ==> DistinctKeys(entries[i].value)
    case _ => true
  }

  /** A node of every kind, byte by byte, and a count of two bytes, the low seven bits first. */
  lemma {:induction false} WireByExample(body: Text)
    ensures Enc(Absent) == [0] && Enc(Null) == [1] && Enc(Bool(false)) == [2, 0] && Enc(Bool(true)) == [2, 1]
    ensures Enc(Number([45, 49])) == [3, 2, 45, 49]
    ensures Enc(Str([195, 169])) == [4, 2, 195, 169]
    ensures Enc(Bytes([0, 255])) == [5, 2, 0, 255]
    ensures Enc(List([Null, Bool(true)])) == [6, 2, 1, 2, 1]
    ensures Enc(Map([Entry([107], Null)])) == [7, 1, 1, 107, 1]
    ensures |body| == 300 ==> Enc(Bytes(body)) == [5, 0xAC, 2] + body
  {
    assert EncItems([Null, Bool(true)][1..]) == [2, 1];
    assert Leb(300) == [0xAC, 2];
  }
}
