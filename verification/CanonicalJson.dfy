/** `sortKeys`: the canonical form of a JSON value, with object keys in order. */
module CanonicalJson {
  import opened Collections
  import opened StableSort

  /** A leaf is a string, number, boolean or null, by its text. */
  datatype Json = Leaf(text: string) | Arr(items: seq<Json>) | Obj(members: seq<(string, Json)>)

  function Keys(members: seq<(string, Json)>): (r: seq<string>)
    ensures |r| == |members| && forall i :: 0 <= i < |r| ==> r[i] == members[i].0
  {
    seq(|members|, i requires 0 <= i < |members| => members[i].0)
  }

  /** Keys of an object are distinct. */
  ghost predicate WellFormed(v: Json)
    decreases v
  {
    match v
    case Leaf(_) => true
    case Arr(items) => forall i :: 0 <= i < |items| ==> WellFormed(items[i])
    case Obj(members) => Distinct(Keys(members)) && forall i :: 0 <= i < |members| ==> WellFormed(members[i].1)
  }

  // --------------------------------------------------------------- key order

  /** The default sort of strings: by code unit, a prefix first. */
  predicate StringLe(a: string, b: string) {
    a == "" || (b != "" && (a[0] < b[0] || (a[0] == b[0] && StringLe(a[1..], b[1..]))))
  }

  lemma {:induction false} StringOrder(a: string, b: string, c: string)
    ensures StringLe(a, b) || StringLe(b, a)
    ensures StringLe(a, b) && StringLe(b, a) ==> a == b
    ensures StringLe(a, b) && StringLe(b, c) ==> StringLe(a, c)
  {
    if a != "" && b != "" {
      StringOrder(a[1..], b[1..], if c == "" then "" else c[1..]);
      assert a == [a[0]] + a[1..] && b == [b[0]] + b[1..];
    }
  }

  lemma StringLePreorder()
    ensures TotalPreorder(StringLe)
    ensures forall a, b :: StringLe(a, b) && StringLe(b, a) ==> a == b
  {
    forall a, b, c
      ensures StringLe(a, b) || StringLe(b, a)
      ensures StringLe(a, b) && StringLe(b, a) ==> a == b
      ensures StringLe(a, b) && StringLe(b, c) ==> StringLe(a, c)
    {
      StringOrder(a, b, c);
    }
  }

  // ----------------------------------------------------------------- sorting

  function Find(members: seq<(string, Json)>, key: string): (i: nat)
    requires key in Keys(members)
    ensures i < |members| && members[i].0 == key
  {
    if members[0].0 == key then 0
    else
      KeysTail(members);
      1 + Find(members[1..], key)
  }

  lemma KeysTail(members: seq<(string, Json)>)
    requires members != []
    ensures Keys(members) == [members[0].0] + Keys(members[1..])
  {
  }

  /** Assigning to this key of a plain object sets its prototype instead of a member. */
  const PROTO: string := "__proto__"

  function Lasting(keys: seq<string>): seq<string> {
    Filter(keys, k => k != PROTO)
  }

  function SortedKeys(members: seq<(string, Json)>): (r: seq<string>)
    ensures forall k :: k in r ==> k in Keys(members)
  {
    StringLePreorder();
    SortSorted(Lasting(Keys(members)), StringLe);
    Sort(Lasting(Keys(members)), StringLe)
  }

  function SortKeys(v: Json): Json
    decreases v
  {
    match v
    case Leaf(_) => v
    case Arr(items) => Arr(seq(|items|, i requires 0 <= i < |items| => SortKeys(items[i])))
    case Obj(members) =>
      var keys := SortedKeys(members);
      Obj(seq(|keys|, i requires 0 <= i < |keys| =>
        assert keys[i] in keys;
        (keys[i], SortKeys(members[Find(members, keys[i])].1))))
  }

  /** The recursion as the source runs it. */
  method SortKeysOf(value: Json) returns (r: Json)
    ensures r == SortKeys(value)
    decreases value, 1
  {
    match value {
      case Leaf(_) => r := value;
      case Arr(items) => r := MapItems(value, items);
      case Obj(members) => r := Rebuild(value, members);
    }
  }

  /** `value.map(sortKeys)`. */
  method MapItems(ghost value: Json, items: seq<Json>) returns (r: Json)
    requires value == Arr(items)
    ensures r == SortKeys(value)
    decreases value, 0
  {
    var mapped: seq<Json> := [];
    for i := 0 to |items|
      invariant |mapped| == i && forall k :: 0 <= k < i ==> mapped[k] == SortKeys(items[k])
    {
      var item := SortKeysOf(items[i]);
      mapped := mapped + [item];
    }
    r := Arr(mapped);
  }

  /** The member that the canonical form has for a key. */
  function Member(members: seq<(string, Json)>, key: string): (string, Json)
    requires key in Keys(members)
  {
    (key, SortKeys(members[Find(members, key)].1))
  }

  /** An object is rebuilt key by key. */
  method Rebuild(ghost value: Json, members: seq<(string, Json)>) returns (r: Json)
    requires value == Obj(members)
    ensures r == SortKeys(value)
    decreases value, 0
  {
    var keys := SortedKeys(members);
    assert forall i :: 0 <= i < |keys| ==> keys[i] in keys;
    var out: seq<(string, Json)> := [];
    for i := 0 to |keys|
      invariant |out| == i && forall k :: 0 <= k < i ==> out[k] == Member(members, keys[k])
    {
      var item := SortKeysOf(members[Find(members, keys[i])].1);
      out := out + [(keys[i], item)];
    }
    assert SortKeys(value) == Obj(seq(|keys|, i requires 0 <= i < |keys| => Member(members, keys[i])));
    r := Obj(out);
  }

  // ---------------------------------------------------------------- equality

  /** Equal up to the order of object keys, at every level, and up to members that are
      called `__proto__`. */
  ghost predicate Same(a: Json, b: Json)
    decreases a
  {
    match a
    case Leaf(_) => a == b
    case Arr(items) =>
      b.Arr? && |items| == |b.items| && forall i :: 0 <= i < |items| ==> Same(items[i], b.items[i])
    case Obj(members) =>
      && b.Obj?
      && (forall k :: k != PROTO ==> (k in Keys(members) <==> k in Keys(b.members)))
      && forall i, j :: 0 <= i < |members| && 0 <= j < |b.members| && members[i].0 == b.members[j].0 != PROTO ==>
           Same(members[i].1, b.members[j].1)
  }

  lemma SortedKeysExact(members: seq<(string, Json)>)
    requires Distinct(Keys(members))
    ensures var r := SortedKeys(members);
      && Sorted(r, StringLe) && Distinct(r)
      && forall k :: k in r <==> k in Keys(members) && k != PROTO
  {
    var lasting := Lasting(Keys(members));
    StringLePreorder();
    FilterDistinct(Keys(members), k => k != PROTO);
    SortSorted(lasting, StringLe);
    SortKeepsDistinct(lasting);
  }

  lemma {:induction false} SortKeepsDistinct(s: seq<string>)
    requires Distinct(s)
    ensures Distinct(Sort(s, StringLe))
  {
    if s != [] {
      StringLePreorder();
      SortKeepsDistinct(s[1..]);
      SortSorted(s[1..], StringLe);
      assert s[0] !in s[1..];
      InsertKeepsDistinct(s[0], Sort(s[1..], StringLe));
    }
  }

  lemma {:induction false} InsertKeepsDistinct(x: string, s: seq<string>)
    requires Distinct(s) && x !in s
    ensures Distinct(Insert(x, s, StringLe))
    ensures forall y :: y in Insert(x, s, StringLe) <==> y == x || y in s
  {
    if s != [] && !StringLe(x, s[0]) {
      InsertKeepsDistinct(x, s[1..]);
      assert s[0] !in s[1..];
    }
  }

  /** Objects with the same keys list them in the same order. */
  lemma SameKeysSameOrder(a: seq<(string, Json)>, b: seq<(string, Json)>)
    requires Distinct(Keys(a)) && Distinct(Keys(b))
    ensures SortedKeys(a) == SortedKeys(b) <==> forall k :: k != PROTO ==> (k in Keys(a) <==> k in Keys(b))
  {
    SortedKeysExact(a);
    SortedKeysExact(b);
    StringLePreorder();
    if forall k :: k != PROTO ==> (k in Keys(a) <==> k in Keys(b)) {
      SortedUnique(SortedKeys(a), SortedKeys(b), StringLe);
    }
  }

  /** Where a key stands is unique, so looking it up finds its member. */
  lemma FindUnique(members: seq<(string, Json)>, i: nat)
    requires Distinct(Keys(members)) && i < |members|
    ensures Keys(members)[i] in Keys(members)
    ensures Find(members, members[i].0) == i
  {
    var keys := Keys(members);
    assert keys[i] in keys;
    SamePlace(keys, i, Find(members, members[i].0));
  }

  lemma SamePlace(keys: seq<string>, i: nat, j: nat)
    requires Distinct(keys) && i < |keys| && j < |keys| && keys[i] == keys[j]
    ensures i == j
  {
  }

  /** The canonical forms agree exactly when the values agree up to key order and members
      called `__proto__`. */
  lemma {:induction false} SortKeysCanonical(a: Json, b: Json)
    requires WellFormed(a) && WellFormed(b)
    ensures SortKeys(a) == SortKeys(b) <==> Same(a, b)
    decreases a
  {
    match a
    case Leaf(_) =>
    case Arr(items) =>
      if b.Arr? && |items| == |b.items| {
        forall i | 0 <= i < |items| ensures SortKeys(items[i]) == SortKeys(b.items[i]) <==> Same(items[i], b.items[i]) {
          SortKeysCanonical(items[i], b.items[i]);
        }
        ArraysAgree(items, b.items);
      } else if b.Arr? {
        assert |SortKeys(a).items| == |items| && |SortKeys(b).items| == |b.items|;
      }
    case Obj(members) =>
      if b.Obj? {
        forall i, j | 0 <= i < |members| && 0 <= j < |b.members|
          ensures SortKeys(members[i].1) == SortKeys(b.members[j].1) <==> Same(members[i].1, b.members[j].1)
        {
          SortKeysCanonical(members[i].1, b.members[j].1);
        }
        ObjectsAgree(members, b.members);
      }
  }

  lemma ArraysAgree(a: seq<Json>, b: seq<Json>)
    requires |a| == |b|
    ensures SortKeys(Arr(a)) == SortKeys(Arr(b)) <==> forall i :: 0 <= i < |a| ==> SortKeys(a[i]) == SortKeys(b[i])
  {
    var x, y := SortKeys(Arr(a)).items, SortKeys(Arr(b)).items;
    if x == y {
      forall i | 0 <= i < |a| ensures SortKeys(a[i]) == SortKeys(b[i]) {
        assert x[i] == y[i];
      }
    }
  }

  ghost predicate ValuesAgree(a: seq<(string, Json)>, b: seq<(string, Json)>) {
    forall i, j :: 0 <= i < |a| && 0 <= j < |b| && a[i].0 == b[j].0 != PROTO ==>
      SortKeys(a[i].1) == SortKeys(b[j].1)
  }

  lemma ObjectsAgree(a: seq<(string, Json)>, b: seq<(string, Json)>)
    requires Distinct(Keys(a)) && Distinct(Keys(b))
    ensures SortKeys(Obj(a)) == SortKeys(Obj(b)) <==>
      && (forall k :: k != PROTO ==> (k in Keys(a) <==> k in Keys(b)))
      && ValuesAgree(a, b)
  {
    SameKeysSameOrder(a, b);
    SortedKeysExact(a);
    SortedKeysExact(b);
    var ka, kb := SortedKeys(a), SortedKeys(b);
    var x, y := SortKeys(Obj(a)).members, SortKeys(Obj(b)).members;
    if x == y {
      assert forall n :: 0 <= n < |ka| ==> ka[n] == x[n].0 == y[n].0 == kb[n];
      assert ka == kb;
      forall i, j | 0 <= i < |a| && 0 <= j < |b| && a[i].0 == b[j].0 != PROTO
        ensures SortKeys(a[i].1) == SortKeys(b[j].1)
      {
        FindUnique(a, i);
        FindUnique(b, j);
        assert a[i].0 in ka;
        var n :| 0 <= n < |ka| && ka[n] == a[i].0;
        assert x[n] == y[n];
      }
    }
    if ka == kb && ValuesAgree(a, b) {
      forall n | 0 <= n < |ka| ensures x[n] == y[n] {
        assert ka[n] in ka && kb[n] in kb;
        assert a[Find(a, ka[n])].0 == b[Find(b, kb[n])].0;
      }
    }
  }

  /** Nothing else is lost: the canonical form is the same value up to key order and
      members called `__proto__`, and sorting it again changes nothing. */
  lemma {:induction false} SortKeysSame(v: Json)
    requires WellFormed(v)
    ensures WellFormed(SortKeys(v)) && Same(v, SortKeys(v))
    decreases v
  {
    match v
    case Leaf(_) =>
    case Arr(items) =>
      forall i | 0 <= i < |items| ensures WellFormed(SortKeys(items[i])) && Same(items[i], SortKeys(items[i])) {
        SortKeysSame(items[i]);
      }
    case Obj(members) =>
      forall i | 0 <= i < |members|
        ensures WellFormed(SortKeys(members[i].1)) && Same(members[i].1, SortKeys(members[i].1))
      {
        SortKeysSame(members[i].1);
      }
      ObjectSame(members);
  }

  lemma ObjectSame(members: seq<(string, Json)>)
    requires Distinct(Keys(members))
    requires forall i :: 0 <= i < |members| ==>
      WellFormed(SortKeys(members[i].1)) && Same(members[i].1, SortKeys(members[i].1))
    ensures WellFormed(SortKeys(Obj(members))) && Same(Obj(members), SortKeys(Obj(members)))
  {
    SortedKeysExact(members);
    var keys, out := SortedKeys(members), SortKeys(Obj(members)).members;
    assert Keys(out) == keys;
    forall n | 0 <= n < |keys|
      ensures keys[n] in Keys(members) && out[n].1 == SortKeys(members[Find(members, keys[n])].1)
    {
      assert keys[n] in keys;
    }
    forall i, j | 0 <= i < |members| && 0 <= j < |out| && members[i].0 == out[j].0
      ensures Same(members[i].1, out[j].1)
    {
      FindUnique(members, i);
    }
  }

  lemma SortKeysTwice(v: Json)
    requires WellFormed(v)
    ensures SortKeys(SortKeys(v)) == SortKeys(v)
  {
    SortKeysSame(v);
    SortKeysCanonical(v, SortKeys(v));
  }

  /** An own member of that name is lost, so these two values have one canonical form. */
  lemma ProtoIsLost(value: Json)
    requires WellFormed(value)
    ensures SortKeys(Obj([(PROTO, value)])) == SortKeys(Obj([]))
  {
    assert WellFormed(Obj([(PROTO, value)]));
    assert Same(Obj([(PROTO, value)]), Obj([]));
    SortKeysCanonical(Obj([(PROTO, value)]), Obj([]));
  }

  /** Values without such members: the canonical forms agree iff the values agree up to key
      order alone. */
  ghost predicate NoProto(v: Json)
    decreases v
  {
    match v
    case Leaf(_) => true
    case Arr(items) => forall i :: 0 <= i < |items| ==> NoProto(items[i])
    case Obj(members) => PROTO !in Keys(members) && forall i :: 0 <= i < |members| ==> NoProto(members[i].1)
  }

  ghost predicate SameMembers(a: Json, b: Json)
    decreases a
  {
    match a
    case Leaf(_) => a == b
    case Arr(items) =>
      b.Arr? && |items| == |b.items| && forall i :: 0 <= i < |items| ==> SameMembers(items[i], b.items[i])
    case Obj(members) =>
      && b.Obj?
      && (forall k :: k in Keys(members) <==> k in Keys(b.members))
      && forall i, j :: 0 <= i < |members| && 0 <= j < |b.members| && members[i].0 == b.members[j].0 ==>
           SameMembers(members[i].1, b.members[j].1)
  }

  lemma {:induction false} SameWithoutProto(a: Json, b: Json)
    requires NoProto(a) && NoProto(b)
    ensures Same(a, b) <==> SameMembers(a, b)
    decreases a
  {
    match a
    case Leaf(_) =>
    case Arr(items) =>
      if b.Arr? && |items| == |b.items| {
        forall i | 0 <= i < |items| ensures Same(items[i], b.items[i]) <==> SameMembers(items[i], b.items[i]) {
          SameWithoutProto(items[i], b.items[i]);
        }
      }
    case Obj(members) =>
      if b.Obj? {
        assert PROTO !in Keys(members) && PROTO !in Keys(b.members);
        forall i, j | 0 <= i < |members| && 0 <= j < |b.members|
          ensures members[i].0 != PROTO
          ensures Same(members[i].1, b.members[j].1) <==> SameMembers(members[i].1, b.members[j].1)
        {
          assert Keys(members)[i] in Keys(members);
          SameWithoutProto(members[i].1, b.members[j].1);
        }
      }
  }

  lemma SortKeysExact(a: Json, b: Json)
    requires WellFormed(a) && WellFormed(b) && NoProto(a) && NoProto(b)
    ensures SortKeys(a) == SortKeys(b) <==> SameMembers(a, b)
  {
    SortKeysCanonical(a, b);
    SameWithoutProto(a, b);
  }

  // -------------------------------------------------------- the order of keys

  /** By code unit: a prefix comes first, else the first difference decides. */
  ghost predicate Differ(a: string, b: string, i: nat) {
    i < |a| && i < |b| && a[..i] == b[..i] && a[i] < b[i]
  }

  lemma {:induction false} StringLeExact(a: string, b: string)
    ensures StringLe(a, b) <==> a <= b || exists i: nat :: Differ(a, b, i)
  {
    if a != "" && b != "" {
      StringLeExact(a[1..], b[1..]);
      assert a == [a[0]] + a[1..] && b == [b[0]] + b[1..];
      if a[0] < b[0] {
        assert Differ(a, b, 0);
      } else if a[0] == b[0] {
        if i: nat :| Differ(a[1..], b[1..], i) {
          assert a[..i + 1] == [a[0]] + a[1..][..i] && b[..i + 1] == [b[0]] + b[1..][..i];
          assert Differ(a, b, i + 1);
        }
        if i: nat :| Differ(a, b, i) {
          assert i > 0;
          assert a[..i][1..] == a[1..][..i - 1] && b[..i][1..] == b[1..][..i - 1];
          assert Differ(a[1..], b[1..], i - 1);
        }
      } else {
        forall i: nat ensures !Differ(a, b, i) {
          if i > 0 && i <= |a| && i <= |b| {
            assert a[..i][0] == a[0] && b[..i][0] == b[0];
          }
        }
      }
    }
  }

  /** In the canonical form the keys of every object are in that order. */
  ghost predicate KeysInOrder(v: Json)
    decreases v
  {
    match v
    case Leaf(_) => true
    case Arr(items) => forall i :: 0 <= i < |items| ==> KeysInOrder(items[i])
    case Obj(members) =>
      && (forall i, j :: 0 <= i < j < |members| ==> StringLe(members[i].0, members[j].0))
      && forall i :: 0 <= i < |members| ==> KeysInOrder(members[i].1)
  }

  lemma {:induction false} SortKeysInOrder(v: Json)
    requires WellFormed(v)
    ensures KeysInOrder(SortKeys(v))
    decreases v
  {
    match v
    case Leaf(_) =>
    case Arr(items) =>
      forall i | 0 <= i < |items| ensures KeysInOrder(SortKeys(items[i])) {
        SortKeysInOrder(items[i]);
      }
    case Obj(members) =>
      var keys, out := SortedKeys(members), SortKeys(v).members;
      SortedKeysExact(members);
      forall n | 0 <= n < |keys| ensures out[n].0 == keys[n] && KeysInOrder(out[n].1) {
        assert keys[n] in keys;
        SortKeysInOrder(members[Find(members, keys[n])].1);
      }
  }
}
