/** Small shared vocabulary: optional values, order-preserving filters, and the
    insertion-ordered map that a JavaScript `Map` is. */
module Collections {

  datatype Option<+T> = None | Some(value: T)

  /** `Array.prototype.filter`. */
  function Filter<T(!new)>(s: seq<T>, keep: T -> bool): (r: seq<T>)
    ensures forall x :: x in r <==> x in s && keep(x)
    ensures |r| <= |s|
  {
    if s == [] then [] else
    var rest := Filter(s[1..], keep);
    assert forall x :: x in s <==> x == s[0] || x in s[1..];
    if keep(s[0]) then [s[0]] + rest else rest
  }

  lemma {:induction false} FilterAppend<T(!new)>(s: seq<T>, t: seq<T>, keep: T -> bool)
    ensures Filter(s + t, keep) == Filter(s, keep) + Filter(t, keep)
  {
    if s == [] {
      assert s + t == t;
    } else {
      assert (s + t)[1..] == s[1..] + t;
      FilterAppend(s[1..], t, keep);
    }
  }

  lemma {:induction false} FilterAll<T(!new)>(s: seq<T>, keep: T -> bool)
    requires forall x :: x in s ==> keep(x)
    ensures Filter(s, keep) == s
  {
    if s != [] {
      FilterAll(s[1..], keep);
    }
  }

  ghost predicate Distinct<T(!new)>(s: seq<T>) {
    forall i, j :: 0 <= i < j < |s| ==> s[i] != s[j]
  }

  lemma {:induction false} FilterDistinct<T(!new)>(s: seq<T>, keep: T -> bool)
    requires Distinct(s)
    ensures Distinct(Filter(s, keep))
  {
    if s != [] {
      FilterDistinct(s[1..], keep);
    }
  }

  /** `a` stands before `b`. */
  ghost predicate Precedes<T(!new)>(s: seq<T>, a: T, b: T) {
    exists i, j :: 0 <= i < j < |s| && s[i] == a && s[j] == b
  }

  lemma PrecedesStep<T(!new)>(s: seq<T>, a: T, b: T)
    requires s != []
    ensures Precedes(s, a, b) <==> (s[0] == a && b in s[1..]) || Precedes(s[1..], a, b)
  {
    if Precedes(s, a, b) {
      var i, j :| 0 <= i < j < |s| && s[i] == a && s[j] == b;
      assert s[1..][j - 1] == b;
      if i > 0 {
        assert s[1..][i - 1] == a;
      }
    }
    if s[0] == a && b in s[1..] {
      var j :| 0 <= j < |s[1..]| && s[1..][j] == b;
      assert s[j + 1] == b;
    }
    if Precedes(s[1..], a, b) {
      var i, j :| 0 <= i < j < |s[1..]| && s[1..][i] == a && s[1..][j] == b;
      assert s[i + 1] == a && s[j + 1] == b;
    }
  }

  lemma {:induction false} FilterPrecedes<T(!new)>(s: seq<T>, keep: T -> bool, a: T, b: T)
    requires keep(a) && keep(b)
    ensures Precedes(Filter(s, keep), a, b) <==> Precedes(s, a, b)
  {
    if s != [] {
      FilterPrecedes(s[1..], keep, a, b);
      PrecedesStep(s, a, b);
      if keep(s[0]) {
        PrecedesStep(Filter(s, keep), a, b);
        assert Filter(s, keep)[1..] == Filter(s[1..], keep);
      }
    }
  }

  lemma PrecedesAppend<T(!new)>(s: seq<T>, x: T, a: T, b: T)
    ensures Precedes(s + [x], a, b) <==> Precedes(s, a, b) || (b == x && a in s)
  {
    var t := s + [x];
    if Precedes(t, a, b) {
      var i, j :| 0 <= i < j < |t| && t[i] == a && t[j] == b;
      assert s[i] == a && a in s;
      assert j < |s| ==> s[j] == b;
    }
    if Precedes(s, a, b) {
      var i, j :| 0 <= i < j < |s| && s[i] == a && s[j] == b;
      assert t[i] == a && t[j] == b;
    }
    if b == x && a in s {
      var i :| 0 <= i < |s| && s[i] == a;
      assert t[i] == a && t[|s|] == b;
    }
  }

  lemma DistinctAppend<T(!new)>(s: seq<T>, x: T)
    requires Distinct(s) && x !in s
    ensures Distinct(s + [x])
  {
  }

  lemma DistinctSplit<T(!new)>(s: seq<T>, n: nat)
    requires Distinct(s) && n <= |s|
    ensures Distinct(s[..n]) && Distinct(s[n..])
    ensures forall x :: x in s <==> x in s[..n] || x in s[n..]
    ensures forall x :: x in s[..n] ==> x !in s[n..]
  {
    assert s == s[..n] + s[n..];
    forall x | x in s[..n] ensures x !in s[n..] {
      var a :| 0 <= a < n && s[a] == x;
      forall b | 0 <= b < |s| - n ensures s[n..][b] != x {
        assert s[n..][b] == s[n + b];
      }
    }
  }

  lemma PartMembers<T(!new)>(s: seq<T>, n: nat)
    requires n <= |s|
    ensures forall i :: 0 <= i < n ==> s[i] in s[..n]
    ensures forall i :: n <= i < |s| ==> s[i] in s[n..]
  {
    forall i | 0 <= i < n ensures s[i] in s[..n] {
      assert s[..n][i] == s[i];
    }
    forall i | n <= i < |s| ensures s[i] in s[n..] {
      assert s[n..][i - n] == s[i];
    }
  }

  /** A finite set that fits strictly between two bounds is no larger than the gap. */
  lemma {:induction false} BoundedCard(s: set<nat>, lo: nat, hi: nat)
    requires lo <= hi
    requires forall k :: k in s ==> lo <= k < hi
    ensures |s| <= hi - lo
  {
    if lo == hi {
      assert s == {};
    } else {
      var t := s - {hi - 1};
      assert |s| <= |t| + 1 by {
        if hi - 1 in s {
          assert s == t + {hi - 1};
        } else {
          assert s == t;
        }
      }
      BoundedCard(t, lo, hi - 1);
    }
  }

  lemma {:induction false} SubsetCard<T>(a: set<T>, b: set<T>)
    requires a <= b
    ensures |a| <= |b|
  {
    if a != {} {
      var x :| x in a;
      SubsetCard(a - {x}, b - {x});
    }
  }

  lemma {:induction false} DistinctCard<T(!new)>(s: seq<T>)
    requires Distinct(s)
    ensures |set x | x in s| == |s|
  {
    if s == [] {
      assert (set x | x in s) == {};
    } else {
      DistinctCard(s[1..]);
      assert (set x | x in s) == {s[0]} + (set x | x in s[1..]);
    }
  }
}

/** JavaScript's `Map`: lookups by key, iteration in insertion order. Setting a
    present key keeps its position; deleting and setting again moves it to the end. */
module JsMaps {
  import opened Collections

  datatype JsMap<K(==,!new), V> = JsMap(keys: seq<K>, vals: map<K, V>) {

    ghost predicate Valid() {
      && Distinct(keys)
      && (forall k :: k in keys <==> k in vals)
    }

    predicate Has(k: K) { k in vals }

    function Size(): nat { |keys| }

    function Put(k: K, v: V): JsMap<K, V> {
      if k in vals then JsMap(keys, vals[k := v]) else JsMap(keys + [k], vals[k := v])
    }

    function Remove(k: K): JsMap<K, V> {
      JsMap(Without(keys, k), vals - {k})
    }
  }

  function Empty<K(==,!new), V>(): JsMap<K, V> { JsMap([], map[]) }

  lemma PutValid<K(!new), V>(m: JsMap<K, V>, k: K, v: V)
    requires m.Valid()
    ensures m.Put(k, v).Valid()
    ensures m.Put(k, v).Size() == if m.Has(k) then m.Size() else m.Size() + 1
  {
  }

  function Without<K(==,!new)>(keys: seq<K>, k: K): (r: seq<K>)
    ensures forall x :: x in r <==> x in keys && x != k
    ensures k !in keys ==> r == keys
  {
    if keys == [] then []
    else if keys[0] == k then Without(keys[1..], k)
    else [keys[0]] + Without(keys[1..], k)
  }

  lemma {:induction false} WithoutDistinct<K(!new)>(keys: seq<K>, k: K)
    requires Distinct(keys)
    ensures Distinct(Without(keys, k))
    ensures |Without(keys, k)| == if k in keys then |keys| - 1 else |keys|
  {
    if keys != [] {
      WithoutDistinct(keys[1..], k);
      assert keys[0] !in keys[1..];
      assert keys[0] !in Without(keys[1..], k);
    }
  }

  ghost predicate Ascending<K(!new)>(keys: seq<K>, rank: K -> int) {
    forall i, j :: 0 <= i < j < |keys| ==> rank(keys[i]) < rank(keys[j])
  }

  /** Removing an entry never disturbs the order of the rest. */
  lemma {:induction false} WithoutAscending<K(!new)>(keys: seq<K>, k: K, rank: K -> int)
    requires Ascending(keys, rank)
    ensures Ascending(Without(keys, k), rank)
  {
    if keys != [] {
      var rest := Without(keys[1..], k);
      WithoutAscending(keys[1..], k, rank);
      forall j | 0 <= j < |rest| ensures rank(keys[0]) < rank(rest[j]) {
        assert rest[j] in rest;
        var i :| 0 <= i < |keys[1..]| && keys[1..][i] == rest[j];
        assert keys[i + 1] == rest[j];
      }
    }
  }

  lemma RemoveValid<K(!new), V>(m: JsMap<K, V>, k: K)
    requires m.Valid()
    ensures m.Remove(k).Valid()
    ensures m.Remove(k).Size() == if m.Has(k) then m.Size() - 1 else m.Size()
  {
    WithoutDistinct(m.keys, k);
  }
}
