/** The LRU cache in front of the node table: a `Map` whose first key is the oldest. */
module NodeCache {
  import opened Collections
  import opened JsMaps
  import opened GraphTables

  const MAX_CACHE_SIZE: nat := 1000

  type Cache = JsMap<NodeId, Node>

  /** A hit deletes the entry and sets it again, which moves it to the end. */
  function Touch(c: Cache, id: NodeId): Cache
    requires c.Has(id)
  {
    c.Remove(id).Put(id, c.vals[id])
  }

  /** The empty id is falsy, so it would never be evicted. */
  function MakeRoom(c: Cache): Cache {
    if c.Size() >= MAX_CACHE_SIZE && c.keys != [] && c.keys[0] != NoId then c.Remove(c.keys[0]) else c
  }

  function CacheNode(c: Cache, n: Node): Cache {
    MakeRoom(c).Put(n.id, n)
  }

  /** Every cached node is the current row of the table, and the size bound holds. */
  ghost predicate Coherent(c: Cache, t: Tables) {
    && c.Valid()
    && c.Size() <= MAX_CACHE_SIZE
    && (forall id :: id in c.vals ==> id in t.nodes && c.vals[id] == t.nodes[id])
  }

  /** Position of the last touch of `id`, or -1. */
  ghost function LastTouch(touches: seq<NodeId>, id: NodeId): (r: int)
    ensures -1 <= r < |touches|
    ensures r >= 0 ==> touches[r] == id
    ensures id in touches <==> r >= 0
  {
    if touches == [] then -1
    else if touches[|touches| - 1] == id then |touches| - 1
    else
      assert forall x :: x in touches <==> x in touches[..|touches| - 1] || x == touches[|touches| - 1];
      LastTouch(touches[..|touches| - 1], id)
  }

  ghost function AgeOf(touches: seq<NodeId>): NodeId -> int {
    (id: NodeId) => LastTouch(touches, id)
  }

  ghost predicate OldestFirst(keys: seq<NodeId>, touches: seq<NodeId>) {
    && (forall k :: k in keys ==> k in touches)
    && Ascending(keys, AgeOf(touches))
  }

  lemma LastTouchAppend(touches: seq<NodeId>, x: NodeId, id: NodeId)
    ensures LastTouch(touches + [x], id) == if id == x then |touches| else LastTouch(touches, id)
  {
    assert (touches + [x])[..|touches|] == touches;
  }

  lemma WithoutOldestFirst(keys: seq<NodeId>, touches: seq<NodeId>, id: NodeId)
    requires OldestFirst(keys, touches)
    ensures OldestFirst(Without(keys, id), touches)
  {
    WithoutAscending(keys, id, AgeOf(touches));
  }

  lemma AppendOldestFirst(keys: seq<NodeId>, touches: seq<NodeId>, id: NodeId)
    requires OldestFirst(keys, touches) && id !in keys
    ensures OldestFirst(keys + [id], touches + [id])
  {
    forall k ensures AgeOf(touches + [id])(k) == if k == id then |touches| else AgeOf(touches)(k) {
      LastTouchAppend(touches, id, k);
    }
    AppendYoungest(keys, AgeOf(touches), AgeOf(touches + [id]), id, |touches|);
  }

  lemma AppendYoungest(keys: seq<NodeId>, age: NodeId -> int, age': NodeId -> int, id: NodeId, n: int)
    requires Ascending(keys, age) && id !in keys
    requires forall k :: age'(k) == if k == id then n else age(k)
    requires forall k :: age(k) < n
    ensures Ascending(keys + [id], age')
  {
    forall k | 0 <= k < |keys| ensures age'(keys[k]) == age(keys[k]) {
      assert keys[k] in keys;
    }
  }

  /** A hit keeps coherence and re-sorts the entry to the young end. */
  lemma TouchKeeps(c: Cache, t: Tables, touches: seq<NodeId>, id: NodeId)
    requires Coherent(c, t) && OldestFirst(c.keys, touches) && c.Has(id)
    ensures Coherent(Touch(c, id), t) && OldestFirst(Touch(c, id).keys, touches + [id])
    ensures Touch(c, id).vals == c.vals
  {
    TouchCoherent(c, t, id);
    WithoutOldestFirst(c.keys, touches, id);
    AppendOldestFirst(Without(c.keys, id), touches, id);
  }

  lemma TouchCoherent(c: Cache, t: Tables, id: NodeId)
    requires Coherent(c, t) && c.Has(id)
    ensures Coherent(Touch(c, id), t) && Touch(c, id).vals == c.vals
    ensures Touch(c, id).keys == Without(c.keys, id) + [id]
  {
    RemoveValid(c, id);
    PutValid(c.Remove(id), id, c.vals[id]);
    assert (c.vals - {id})[id := c.vals[id]] == c.vals;
  }

  /** The touch log after caching a node: an entry that stays in place is not a touch. */
  ghost function TouchesAfter(c: Cache, touches: seq<NodeId>, id: NodeId): seq<NodeId> {
    if MakeRoom(c).Has(id) then touches else touches + [id]
  }

  lemma MakeRoomKeeps(c: Cache, t: Tables, touches: seq<NodeId>)
    requires WellFormed(t) && Coherent(c, t) && OldestFirst(c.keys, touches)
    ensures Coherent(MakeRoom(c), t) && OldestFirst(MakeRoom(c).keys, touches)
    ensures MakeRoom(c).Size() < MAX_CACHE_SIZE
  {
    if c.Size() >= MAX_CACHE_SIZE {
      assert c.keys[0] in c.keys;
      RemoveValid(c, c.keys[0]);
      WithoutOldestFirst(c.keys, touches, c.keys[0]);
    }
  }

  lemma CacheNodeKeeps(c: Cache, t: Tables, touches: seq<NodeId>, n: Node)
    requires WellFormed(t) && Coherent(c, t) && OldestFirst(c.keys, touches)
    requires n.id in t.nodes && t.nodes[n.id] == n
    ensures Coherent(CacheNode(c, n), t)
    ensures OldestFirst(CacheNode(c, n).keys, TouchesAfter(c, touches, n.id))
  {
    MakeRoomKeeps(c, t, touches);
    PutKeeps(MakeRoom(c), t, touches, n);
  }

  lemma PutKeeps(c: Cache, t: Tables, touches: seq<NodeId>, n: Node)
    requires Coherent(c, t) && OldestFirst(c.keys, touches) && c.Size() < MAX_CACHE_SIZE
    requires n.id in t.nodes && t.nodes[n.id] == n
    ensures Coherent(c.Put(n.id, n), t)
    ensures OldestFirst(c.Put(n.id, n).keys, if c.Has(n.id) then touches else touches + [n.id])
  {
    PutValid(c, n.id, n);
    if !c.Has(n.id) {
      AppendOldestFirst(c.keys, touches, n.id);
    }
  }

  /** Caching a row stores it, and below a thousand entries drops none. */
  lemma CacheNodeExact(c: Cache, t: Tables, n: Node)
    requires WellFormed(t) && Coherent(c, t) && n.id in t.nodes && t.nodes[n.id] == n
    ensures var r := CacheNode(c, n);
      && n.id in r.vals && r.vals[n.id] == n && |r.keys| <= 1000
      && (|c.keys| < 1000 ==> r.vals == c.vals[n.id := n])
  {
    if c.Size() >= MAX_CACHE_SIZE {
      RemoveValid(c, c.keys[0]);
    }
    PutValid(MakeRoom(c), n.id, n);
  }

  ghost predicate LeastRecent(c: Cache, touches: seq<NodeId>, victim: NodeId) {
    forall k :: k in c.vals && k != victim ==> LastTouch(touches, victim) < LastTouch(touches, k)
  }

  /** A full cache makes room by dropping the least recently touched entry and no other. */
  lemma EvictsLeastRecent(c: Cache, t: Tables, touches: seq<NodeId>, n: Node)
    requires WellFormed(t) && Coherent(c, t) && OldestFirst(c.keys, touches)
    requires c.Size() == MAX_CACHE_SIZE && !c.Has(n.id)
    ensures exists victim :: victim in c.vals && LeastRecent(c, touches, victim)
                          && CacheNode(c, n).vals == (c.vals - {victim})[n.id := n]
  {
    var victim := c.keys[0];
    assert victim in c.keys;
    forall k | k in c.vals && k != victim ensures LastTouch(touches, victim) < LastTouch(touches, k) {
      var i :| 0 <= i < |c.keys| && c.keys[i] == k;
      assert AgeOf(touches)(c.keys[0]) < AgeOf(touches)(c.keys[i]);
    }
    assert CacheNode(c, n).vals == (c.vals - {victim})[n.id := n];
  }

  lemma ForgetKeeps(c: Cache, t: Tables, t': Tables, touches: seq<NodeId>, id: NodeId)
    requires Coherent(c, t) && OldestFirst(c.keys, touches)
    requires forall k :: k in t.nodes && k != id ==> k in t'.nodes && t'.nodes[k] == t.nodes[k]
    ensures Coherent(c.Remove(id), t') && OldestFirst(c.Remove(id).keys, touches)
  {
    RemoveValid(c, id);
    WithoutOldestFirst(c.keys, touches, id);
  }
}
