/**
  Records of a hierarchical collection and the id index both engines build over
  them (`_arrayToHash` in data_types/Tree.js and in handlers/DataHandler.js).

  A record is an object: the engines link records into each other's `data`
  lists in place, and a record reached through the index, through the record
  array and through a parent's `data` list is one and the same object. `id`
  and `parent` are the values found under the configured id and parent-id
  fields; both are integers in this model (JavaScript compares them loosely
  and keys the index by their string forms, which the model does not do).
 */
module Records {
  import opened Wrappers

  class Node {
    /** The value under the id field. */
    const id: int
    /** The value under the parent-id field. */
    const parent: int
    /** The own property `data`: absent, or the array of linked child records. */
    var data: Option<seq<Node>>
    /** Whether the has-children field has been set to `true`. */
    var hasChildren: bool

    constructor (id: int, parent: int, data: Option<seq<Node>>, hasChildren: bool)
      ensures this.id == id && this.parent == parent
      ensures this.data == data && this.hasChildren == hasChildren
    {
      this.id := id;
      this.parent := parent;
      this.data := data;
      this.hasChildren := hasChildren;
    }
  }

  /** The index `_arrayToHash` builds: for each id, the last record carrying it. */
  function Index(a: seq<Node>): map<int, Node> {
    if a == [] then map[]
    else Index(a[..|a| - 1])[a[|a| - 1].id := a[|a| - 1]]
  }

  /** The order a `for-in` loop visits the index in: each id where it first occurs. */
  function KeyOrder(a: seq<Node>): seq<int> {
    if a == [] then []
    else
      var ks := KeyOrder(a[..|a| - 1]);
      if a[|a| - 1].id in ks then ks else ks + [a[|a| - 1].id]
  }

  /** Every index entry is keyed by its own record's id. */
  predicate KeyedById(hash: map<int, Node>) {
    forall k :: k in hash ==> hash[k].id == k
  }

  /** The index holds exactly the ids of the array, each bound to a record of the array carrying it. */
  lemma {:induction false} IndexKeys(a: seq<Node>)
    ensures KeyedById(Index(a))
    ensures forall k :: k in Index(a) <==> exists j :: 0 <= j < |a| && a[j].id == k
    ensures forall j :: 0 <= j < |a| ==> a[j].id in Index(a)
    ensures forall k :: k in Index(a) ==> Index(a)[k] in a
  {
    if a != [] {
      var n := |a| - 1;
      IndexKeys(a[..n]);
      forall k | k in Index(a) ensures exists j :: 0 <= j < |a| && a[j].id == k {
        if k != a[n].id {
          var j :| 0 <= j < n && a[..n][j].id == k;
          assert a[j].id == k;
        }
      }
      forall k | k in Index(a) ensures Index(a)[k] in a {
        if k != a[n].id { assert Index(a[..n])[k] in a[..n]; }
      }
      forall j | 0 <= j < |a| ensures a[j].id in Index(a) {
        if j < n { assert a[..n][j] == a[j]; }
      }
    }
  }

  /** The record stored under an id is the last record of the array carrying it. */
  lemma {:induction false} IndexLast(a: seq<Node>, j: nat)
    requires j < |a|
    requires forall j' :: j < j' < |a| ==> a[j'].id != a[j].id
    ensures a[j].id in Index(a) && Index(a)[a[j].id] == a[j]
  {
    var n := |a| - 1;
    if j < n {
      IndexLast(a[..n], j);
    }
  }

  /** The visiting order lists every index key exactly once. */
  lemma {:induction false} KeyOrderSpec(a: seq<Node>)
    ensures forall k :: k in KeyOrder(a) <==> k in Index(a)
    ensures forall i, j :: 0 <= i < j < |KeyOrder(a)| ==> KeyOrder(a)[i] != KeyOrder(a)[j]
  {
    if a != [] {
      KeyOrderSpec(a[..|a| - 1]);
    }
  }

  /**
    `_arrayToHash(dataArray, keyField)` for a field key: one pass over the
    array, each record stored under its id, a later record overwriting an
    earlier one. `keys` is the index's visiting order.
   */
  method ArrayToHash(a: seq<Node>) returns (keys: seq<int>, hash: map<int, Node>)
    ensures keys == KeyOrder(a) && hash == Index(a)
  {
    keys, hash := [], map[];
    for i := 0 to |a|
      invariant keys == KeyOrder(a[..i]) && hash == Index(a[..i])
    {
      assert a[..i + 1][..i] == a[..i];
      var data := a[i];
      if data.id !in keys {
        keys := keys + [data.id];
      }
      hash := hash[data.id := data];
    }
    assert a[..|a|] == a;
  }

  /** No record object appears twice. */
  predicate Distinct(a: seq<Node>) {
    forall i, j :: 0 <= i < j < |a| ==> a[i] != a[j]
  }

  /** Joining two duplicate-free lists with nothing in common gives a duplicate-free list. */
  lemma DistinctConcat(a: seq<Node>, b: seq<Node>)
    requires Distinct(a) && Distinct(b)
    requires forall x :: x in a ==> x !in b
    ensures Distinct(a + b)
  {
    forall i, j | 0 <= i < j < |a + b| ensures (a + b)[i] != (a + b)[j] {
      if i < |a| && |a| <= j {
        assert (a + b)[i] in a && (a + b)[j] == b[j - |a|];
      }
    }
  }

  /** No key is listed twice. */
  predicate DistinctKeys(keys: seq<int>) {
    forall i, j :: 0 <= i < j < |keys| ==> keys[i] != keys[j]
  }

  /** Every key of `keys` is an index key. */
  predicate KeysIndexed(keys: seq<int>, hash: map<int, Node>) {
    forall k :: k in keys ==> k in hash
  }

  /**
    The records the linking loop pushes into the `data` list of the record
    with id `p`, in the order it visits `keys`: those whose parent id is `p`.
   */
  function ChildrenOf(keys: seq<int>, hash: map<int, Node>, p: int): (cs: seq<Node>)
    requires KeysIndexed(keys, hash) && KeyedById(hash)
    ensures forall c :: c in cs ==> c.parent == p && c.id in keys && hash[c.id] == c
  {
    if keys == [] then []
    else
      var last := keys[|keys| - 1];
      var init := keys[..|keys| - 1];
      assert forall k :: k in init ==> k in keys;
      ChildrenOf(init, hash, p) + (if hash[last].parent == p then [hash[last]] else [])
  }

  /** Every indexed record whose parent id is `p` is in the children list of `p`. */
  lemma {:induction false} ChildrenOfComplete(keys: seq<int>, hash: map<int, Node>, p: int)
    requires KeysIndexed(keys, hash) && KeyedById(hash)
    ensures forall k :: k in keys && hash[k].parent == p ==> hash[k] in ChildrenOf(keys, hash, p)
  {
    if keys != [] {
      var init := keys[..|keys| - 1];
      assert forall k :: k in keys ==> k in init || k == keys[|keys| - 1];
      assert forall k :: k in init ==> k in keys;
      ChildrenOfComplete(init, hash, p);
    }
  }

  /** Over keys listed once, a children list holds no record twice. */
  lemma {:induction false} ChildrenDistinct(keys: seq<int>, hash: map<int, Node>, p: int)
    requires KeysIndexed(keys, hash) && KeyedById(hash) && DistinctKeys(keys)
    ensures Distinct(ChildrenOf(keys, hash, p))
  {
    if keys != [] {
      var last := keys[|keys| - 1];
      var init := keys[..|keys| - 1];
      assert forall k :: k in init ==> k in keys;
      ChildrenDistinct(init, hash, p);
      assert last !in init;
      DistinctConcat(ChildrenOf(init, hash, p), if hash[last].parent == p then [hash[last]] else []);
    }
  }

  /** The keys whose record's parent id is not an index key: the roots, in visiting order. */
  function RootKeys(keys: seq<int>, hash: map<int, Node>): seq<int>
    requires KeysIndexed(keys, hash)
  {
    if keys == [] then []
    else
      var last := keys[|keys| - 1];
      var init := keys[..|keys| - 1];
      assert forall k :: k in init ==> k in keys;
      RootKeys(init, hash) + (if hash[last].parent !in hash then [last] else [])
  }

  /** The root list holds exactly the keys whose record's parent id is not an index key. */
  lemma {:induction false} RootKeysSpec(keys: seq<int>, hash: map<int, Node>)
    requires KeysIndexed(keys, hash)
    ensures forall k :: k in RootKeys(keys, hash) <==> k in keys && hash[k].parent !in hash
    ensures |RootKeys(keys, hash)| <= |keys|
  {
    if keys != [] {
      var init := keys[..|keys| - 1];
      assert forall k :: k in keys ==> k in init || k == keys[|keys| - 1];
      RootKeysSpec(init, hash);
    }
  }

  /** Every prefix of indexed keys is indexed. */
  lemma PrefixIndexed(keys: seq<int>, hash: map<int, Node>, n: nat)
    requires KeysIndexed(keys, hash) && n <= |keys|
    ensures KeysIndexed(keys[..n], hash)
    ensures n < |keys| ==> keys[n] in hash
  {
    if n < |keys| {
      var x := keys[n];
      assert x in keys;
    }
    forall k | k in keys[..n] ensures k in hash {
      var j :| 0 <= j < n && keys[..n][j] == k;
      assert keys[j] in keys;
    }
  }

  /** One more visited key extends the root list when its record's parent id is not indexed. */
  lemma PrefixStep(keys: seq<int>, hash: map<int, Node>, i: nat)
    requires KeysIndexed(keys, hash) && i < |keys|
    ensures keys[i] in hash && KeysIndexed(keys[..i + 1], hash)
    ensures RootKeys(keys[..i + 1], hash) ==
      RootKeys(keys[..i], hash) + (if hash[keys[i]].parent !in hash then [keys[i]] else [])
  {
    PrefixIndexed(keys, hash, i + 1);
    PrefixIndexed(keys, hash, i);
    var ks := keys[..i + 1];
    assert ks[..|ks| - 1] == keys[..i];
    assert ks[|ks| - 1] == keys[i];
  }

  /** One more visited key extends the children list of its record's parent. */
  lemma ChildrenStep(keys: seq<int>, hash: map<int, Node>, i: nat, p: int)
    requires KeysIndexed(keys, hash) && KeyedById(hash) && i < |keys|
    ensures keys[i] in hash && KeysIndexed(keys[..i + 1], hash) && KeysIndexed(keys[..i], hash)
    ensures ChildrenOf(keys[..i + 1], hash, p) ==
      ChildrenOf(keys[..i], hash, p) + (if hash[keys[i]].parent == p then [hash[keys[i]]] else [])
  {
    PrefixIndexed(keys, hash, i + 1);
    PrefixIndexed(keys, hash, i);
    var ks := keys[..i + 1];
    assert ks[..|ks| - 1] == keys[..i];
    assert ks[|ks| - 1] == keys[i];
  }

  /** The `data` property after `children` are pushed one by one, created on the first child. */
  function AppendChildren(data: Option<seq<Node>>, children: seq<Node>): Option<seq<Node>> {
    if children == [] then data
    else if data.None? then Some(children)
    else Some(data.value + children)
  }

  /** Pushing one more child onto a `data` list, creating it if absent. */
  lemma AppendOne(data: Option<seq<Node>>, cs: seq<Node>, node: Node)
    ensures AppendChildren(data, cs + [node]) == Some(AppendChildren(data, cs).GetOr([]) + [node])
  {
    if cs == [] {
      assert cs + [node] == [node];
    } else if data.Some? {
      assert data.value + (cs + [node]) == (data.value + cs) + [node];
    }
  }
}
