/** The order a Go map's keys are written in: integers by value, text by its bytes. */
module KeyOrder {
  import opened Texts
  import opened GoData

  /** strings.Compare(a, b) < 0. */
  predicate Precedes(a: Text, b: Text) {
    b != [] && (a == [] || a[0] < b[0] || (a[0] == b[0] && Precedes(a[1..], b[1..])))
  }

  lemma {:induction false} PrecedesIsTotal(a: Text, b: Text)
    ensures a == b || Precedes(a, b) || Precedes(b, a)
    ensures !(Precedes(a, b) && Precedes(b, a)) && !Precedes(a, a)
  {
    if a != [] && b != [] {
      assert a == [a[0]] + a[1..] && b == [b[0]] + b[1..];
      PrecedesIsTotal(a[1..], b[1..]);
    }
    if a != [] { PrecedesIsTotal(a[1..], a[1..]); }
  }

  /** Up to some place the two are alike, and there one has ended or has the lower byte. */
  ghost predicate DiffersBelow(a: Text, b: Text, k: nat) {
    k < |b| && k <= |a| && a[..k] == b[..k] && (k == |a| || a[k] < b[k])
  }

  lemma {:induction false} PrecedesExactly(a: Text, b: Text)
    ensures Precedes(a, b) <==> exists k: nat :: DiffersBelow(a, b, k)
  {
    if b == [] {
    } else if a == [] || a[0] < b[0] {
      assert DiffersBelow(a, b, 0);
    } else if a[0] == b[0] {
      PrecedesExactly(a[1..], b[1..]);
      if k: nat :| DiffersBelow(a[1..], b[1..], k) {
        assert a[..k + 1] == [a[0]] + a[1..][..k] && b[..k + 1] == [b[0]] + b[1..][..k];
        assert DiffersBelow(a, b, k + 1);
      }
      if k: nat :| DiffersBelow(a, b, k) {
        assert a[1..][..k - 1] == a[..k][1..] && b[1..][..k - 1] == b[..k][1..];
        assert DiffersBelow(a[1..], b[1..], k - 1);
      }
    } else {
      forall k: nat ensures !DiffersBelow(a, b, k) {
        if 0 < k <= |a| && k <= |b| { assert a[..k][0] == a[0] && b[..k][0] == b[0]; }
      }
    }
  }

  lemma {:induction false} PrecedesIsTransitive(a: Text, b: Text, c: Text)
    requires Precedes(a, b) && Precedes(b, c)
    ensures Precedes(a, c)
  {
    if a != [] && a[0] == b[0] == c[0] {
      PrecedesIsTransitive(a[1..], b[1..], c[1..]);
    }
  }

  function Rank(k: Key): nat {
    match k case KText(_) => 0 case KNum(_) => 1 case KFlag(_) => 2
  }

  /** The comparison keys are sorted by. */
  predicate Before(a: Key, b: Key) {
    match (a, b)
    case (KText(s), KText(t)) => Precedes(s, t)
    case (KNum(i), KNum(j)) => i < j
    case (KFlag(p), KFlag(q)) => !p && q
    case _ => Rank(a) < Rank(b)
  }

  lemma BeforeIsTotal(a: Key, b: Key)
    ensures a == b || Before(a, b) || Before(b, a)
    ensures !(Before(a, b) && Before(b, a)) && !Before(a, a)
  {
    if a.KText? { PrecedesIsTotal(a.text, if b.KText? then b.text else a.text); }
  }

  /** Keys of one type: a text by its first byte that differs, an integer by its value however
      it is spelled, and false before true. */
  lemma {:induction false} BeforeExactly(a: Key, b: Key, kt: KeyType)
    requires KeyHasType(a, kt) && KeyHasType(b, kt)
    ensures Before(a, b) <==>
      || (kt.KeyString? && exists k: nat :: DiffersBelow(a.text, b.text, k))
      || (kt.KeyInt? && a.num < b.num)
      || (kt.KeyBool? && a == KFlag(false) && b == KFlag(true))
  {
    if kt.KeyString? { PrecedesExactly(a.text, b.text); }
  }

  lemma BeforeIsTransitive(a: Key, b: Key, c: Key)
    requires Before(a, b) && Before(b, c)
    ensures Before(a, c)
  {
    if a.KText? && b.KText? && c.KText? { PrecedesIsTransitive(a.text, b.text, c.text); }
  }

  ghost predicate Ascending(ks: seq<Key>) {
    forall i, j :: 0 <= i < j < |ks| ==> Before(ks[i], ks[j])
  }

  /** ks is the keys in keys, each once, in order. */
  ghost predicate SortsTo(keys: set<Key>, ks: seq<Key>) {
    Ascending(ks) && forall k :: k in keys <==> k in ks
  }

  lemma {:induction false} SortIsUnique(keys: set<Key>, a: seq<Key>, b: seq<Key>)
    requires SortsTo(keys, a) && SortsTo(keys, b)
    ensures a == b
    decreases |a|
  {
    EmptySort(keys, a);
    EmptySort(keys, b);
    if a != [] {
      assert a[0] in b && b[0] in a;
      BeforeIsTotal(a[0], b[0]);
      assert a[0] == b[0];
      TailSorts(keys, a);
      TailSorts(keys, b);
      SortIsUnique(keys - {a[0]}, a[1..], b[1..]);
      assert a == [a[0]] + a[1..] && b == [b[0]] + b[1..];
    }
  }

  lemma EmptySort(keys: set<Key>, a: seq<Key>)
    requires SortsTo(keys, a)
    ensures a == [] <==> keys == {}
  {
    if a != [] { assert a[0] in keys; }
  }

  lemma TailSorts(keys: set<Key>, a: seq<Key>)
    requires SortsTo(keys, a) && a != []
    ensures SortsTo(keys - {a[0]}, a[1..])
  {
    BeforeIsTotal(a[0], a[0]);
    forall k ensures k in keys - {a[0]} <==> k in a[1..] {
      if k in a[1..] {
        var i :| 0 <= i < |a[1..]| && a[1..][i] == k;
        assert a[i + 1] == k && Before(a[0], a[i + 1]);
      }
      if k in keys - {a[0]} {
        var i :| 0 <= i < |a| && a[i] == k;
        assert a[1..][i - 1] == k;
      }
    }
  }

  ghost function LeastOf(keys: set<Key>): (k: Key)
    requires keys != {}
    ensures k in keys && forall j :: j in keys && j != k ==> Before(k, j)
    decreases keys
  {
    var x :| x in keys;
    if keys == {x} then x
    else
      var y := LeastOf(keys - {x});
      BeforeIsTotal(x, y);
      if Before(x, y) then
        assert forall j :: j in keys && j != x ==> Before(x, j) by {
          forall j | j in keys && j != x ensures Before(x, j) {
            if j != y { BeforeIsTransitive(x, y, j); }
          }
        }
        x
      else y
  }

  /** The one sequence keys sort to. */
  ghost function Sorted(keys: set<Key>): (ks: seq<Key>)
    ensures SortsTo(keys, ks)
  {
    SortExists(keys);
    var ks :| SortsTo(keys, ks);
    ks
  }

  lemma {:induction false} SortExists(keys: set<Key>)
    ensures exists ks :: SortsTo(keys, ks)
    decreases keys
  {
    if keys == {} {
      assert SortsTo(keys, []);
    } else {
      var least := LeastOf(keys);
      SortExists(keys - {least});
      var rest :| SortsTo(keys - {least}, rest);
      LeastFirst(keys, least, rest);
    }
  }

  lemma LeastFirst(keys: set<Key>, least: Key, rest: seq<Key>)
    requires least in keys && forall j :: j in keys && j != least ==> Before(least, j)
    requires SortsTo(keys - {least}, rest)
    ensures SortsTo(keys, [least] + rest)
  {
    assert forall i :: 0 <= i < |rest| ==> rest[i] in rest;
  }

  lemma {:induction false} SortedOnce(keys: set<Key>, ks: seq<Key>)
    requires SortsTo(keys, ks)
    ensures |ks| == |keys|
    ensures forall i, j :: 0 <= i < j < |ks| ==> ks[i] != ks[j]
    ensures forall i :: 0 <= i < |ks| ==> ks[i] in keys
    decreases |ks|
  {
    EmptySort(keys, ks);
    if ks != [] {
      assert ks[0] in keys;
      TailSorts(keys, ks);
      SortedOnce(keys - {ks[0]}, ks[1..]);
      forall i, j | 0 <= i < j < |ks| ensures ks[i] != ks[j] {
        BeforeIsTotal(ks[i], ks[j]);
      }
    }
  }

  /** slices.SortFunc over the keys, whatever order the map gave them in: each goes
      in before the first it precedes. */
  method Sort(keys: set<Key>) returns (ks: seq<Key>)
    ensures ks == Sorted(keys)
  {
    ks := [];
    var left := keys;
    while left != {}
      invariant left <= keys && SortsTo(keys - left, ks)
      decreases left
    {
      var k :| k in left;
      ks := Insert(keys - left, ks, k);
      left := left - {k};
      assert keys - left == (keys - left - {k}) + {k};
    }
    assert keys - left == keys;
    SortIsUnique(keys, ks, Sorted(keys));
  }

  method Insert(ghost keys: set<Key>, ks: seq<Key>, k: Key) returns (out: seq<Key>)
    requires SortsTo(keys, ks) && k !in keys
    ensures SortsTo(keys + {k}, out)
  {
    var i := 0;
    while i < |ks| && Before(ks[i], k)
      invariant 0 <= i <= |ks| && forall j :: 0 <= j < i ==> Before(ks[j], k)
    {
      i := i + 1;
    }
    out := ks[..i] + [k] + ks[i..];
    forall j | i <= j < |ks| ensures Before(k, ks[j]) {
      assert ks[i] in ks;
      BeforeIsTotal(k, ks[i]);
      if i < j { BeforeIsTransitive(k, ks[i], ks[j]); }
    }
    forall x ensures x in keys + {k} <==> x in out {
      assert ks == ks[..i] + ks[i..];
    }
  }
}
