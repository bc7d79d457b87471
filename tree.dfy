/**
  The hierarchical data engine of data_types/Tree.js: a copy of a flat record
  array, an id index over it, each record linked into its parent's `data`
  list, the assembled root object, the pre-order branch walk used for
  cascading deletes, and the one-level children lookup of dynamic loading.
 */
module Tree {
  import opened Wrappers
  import opened Records

  /** `Tree.ROOT_TREE_ID`: the item id a client asks for to get the top level. */
  const ROOT_TREE_ID: int := 0

  /** A record as the caller hands it over. The tree only ever works on copies. */
  datatype Record = Record(id: int, parent: int)

  /** The optional `fields` argument `{id, parent_id, children}`; "" stands for an absent or falsy entry. */
  datatype FieldOptions = FieldOptions(id: string, parentId: string, children: string)

  /** `given || default` for a field name. */
  function OrDefault(given: string, default: string): (name: string)
    ensures given != "" ==> name == given
    ensures given == "" ==> name == default
  {
    if given != "" then given else default
  }

  /**
    The object `get()` returns. `{}` is `RootObj(None, None)`. Otherwise it has
    the parent-id field, whose value is read from an array (so `undefined`
    for any field name that is not an array property), and a `data` list whose
    entries are arrays of records. Only the field's name is kept.
   */
  datatype RootObj = RootObj(parentField: Option<string>, data: Option<seq<seq<Node>>>)

  /** The object `getItemChildren` returns: `{[parent field]: itemId, data: children}`. */
  datatype ItemNode = ItemNode(parentField: string, itemId: int, data: seq<Node>)

  /** The root object built from `rootCount` pushes of the whole record array. */
  function RootObjFor(rootCount: nat, parentField: string, elements: seq<Node>): RootObj {
    if rootCount == 0 then RootObj(None, None)
    else RootObj(Some(parentField), Some(seq(rootCount, _ => elements)))
  }

  /** `_.clone(data, true)`: a fresh copy of every record, none linked yet. */
  method CloneRecords(data: seq<Record>) returns (elements: seq<Node>)
    ensures |elements| == |data| && Distinct(elements)
    ensures forall e :: e in elements ==> fresh(e)
    ensures forall i :: 0 <= i < |data| ==>
      fresh(elements[i]) && elements[i].id == data[i].id && elements[i].parent == data[i].parent
      && elements[i].data.None? && !elements[i].hasChildren
  {
    elements := [];
    for i := 0 to |data|
      invariant |elements| == i && Distinct(elements)
      invariant forall j :: 0 <= j < i ==>
        fresh(elements[j]) && elements[j].id == data[j].id && elements[j].parent == data[j].parent
        && elements[j].data.None? && !elements[j].hasChildren
    {
      var copy := new Node(data[i].id, data[i].parent, None, false);
      elements := elements + [copy];
    }
  }

  /** The `data` a record holds once the linking loop has visited the keys `ks`. */
  function LinkedData(ks: seq<int>, hash: map<int, Node>, e: Node): Option<seq<Node>>
    requires KeysIndexed(ks, hash) && KeyedById(hash) && e.id in hash
  {
    if hash[e.id] == e then AppendChildren(None, ChildrenOf(ks, hash, e.id)) else None
  }

  /** Every record's `data` is what the linking loop gives it after visiting the first `i` keys. */
  ghost predicate LinkedUpTo(elements: seq<Node>, keys: seq<int>, hash: map<int, Node>, i: nat)
    reads set e | e in elements
    requires KeysIndexed(keys, hash) && KeyedById(hash) && i <= |keys|
    requires forall e :: e in elements ==> e.id in hash
  {
    PrefixIndexed(keys, hash, i);
    forall e :: e in elements ==> e.data == LinkedData(keys[..i], hash, e)
  }

  /**
    The linking loop of `_dataToTree`: visiting the index keys in order, a
    record whose parent id is an index key is pushed onto that parent's
    `data` list; for any other record the whole array is pushed onto the
    root list.
   */
  method LinkRecords(elements: seq<Node>, keys: seq<int>, hash: map<int, Node>)
    returns (rootElements: seq<seq<Node>>)
    requires KeyedById(hash) && KeysIndexed(keys, hash)
    requires forall k :: k in hash ==> hash[k] in elements
    requires forall e :: e in elements ==> e.id in hash && e.data.None?
    modifies (set e | e in elements)`data
    ensures |rootElements| == |RootKeys(keys, hash)|
    ensures forall j :: 0 <= j < |rootElements| ==> rootElements[j] == elements
    ensures forall e :: e in elements ==> e.data == LinkedData(keys, hash, e)
    ensures forall e :: e in elements ==> e.hasChildren == old(e.hasChildren)
  {
    rootElements := [];
    assert keys[..0] == [];
    for i := 0 to |keys|
      invariant |rootElements| == |RootKeys(keys[..i], hash)|
      invariant forall j :: 0 <= j < |rootElements| ==> rootElements[j] == elements
      invariant LinkedUpTo(elements, keys, hash, i)
    {
      rootElements := LinkKey(elements, keys, hash, i, rootElements);
    }
    assert keys[..|keys|] == keys;
  }

  /** One pass of the linking loop, for the key at position `i`. */
  method LinkKey(elements: seq<Node>, keys: seq<int>, hash: map<int, Node>, i: nat, rootElements: seq<seq<Node>>)
    returns (rootElements': seq<seq<Node>>)
    requires KeyedById(hash) && KeysIndexed(keys, hash) && i < |keys|
    requires forall k :: k in hash ==> hash[k] in elements
    requires forall e :: e in elements ==> e.id in hash
    requires |rootElements| == |RootKeys(keys[..i], hash)|
    requires forall j :: 0 <= j < |rootElements| ==> rootElements[j] == elements
    requires LinkedUpTo(elements, keys, hash, i)
    modifies (set e | e in elements)`data
    ensures |rootElements'| == |RootKeys(keys[..i + 1], hash)|
    ensures forall j :: 0 <= j < |rootElements'| ==> rootElements'[j] == elements
    ensures LinkedUpTo(elements, keys, hash, i + 1)
  {
    PrefixStep(keys, hash, i);
    var node := hash[keys[i]];
    var parentId := node.parent;
    rootElements' := rootElements;
    if parentId in hash {
      LinkChild(elements, keys, hash, i);
    } else {
      rootElements' := rootElements + [elements];
      RootStep(elements, keys, hash, i);
    }
  }

  /** The push of one pass of the linking loop: the record at key `i` joins its parent's `data`. */
  method LinkChild(elements: seq<Node>, keys: seq<int>, hash: map<int, Node>, i: nat)
    requires KeyedById(hash) && KeysIndexed(keys, hash) && i < |keys|
    requires forall k :: k in hash ==> hash[k] in elements
    requires forall e :: e in elements ==> e.id in hash
    requires keys[i] in hash && hash[keys[i]].parent in hash
    requires LinkedUpTo(elements, keys, hash, i)
    modifies {hash[hash[keys[i]].parent]}`data
    ensures LinkedUpTo(elements, keys, hash, i + 1)
  {
    var node := hash[keys[i]];
    var parent := hash[node.parent];
    parent.data := Some(parent.data.GetOr([]) + [node]);
    forall e | e in elements
      ensures e.data == LinkedData(keys[..i + 1], hash, e)
    {
      DataStep(keys, hash, i, e);
    }
  }

  /** A key whose record's parent id is not indexed changes no `data` list. */
  lemma RootStep(elements: seq<Node>, keys: seq<int>, hash: map<int, Node>, i: nat)
    requires KeyedById(hash) && KeysIndexed(keys, hash) && i < |keys|
    requires forall k :: k in hash ==> hash[k] in elements
    requires forall e :: e in elements ==> e.id in hash
    requires keys[i] in hash && hash[keys[i]].parent !in hash
    requires LinkedUpTo(elements, keys, hash, i)
    ensures LinkedUpTo(elements, keys, hash, i + 1)
  {
    PrefixIndexed(keys, hash, i + 1);
    PrefixIndexed(keys, hash, i);
    forall e | e in elements
      ensures LinkedData(keys[..i + 1], hash, e) == LinkedData(keys[..i], hash, e)
    {
      DataStep(keys, hash, i, e);
    }
  }

  /** The `data` of record `e` after the linking loop visits the key at position `i`. */
  lemma DataStep(keys: seq<int>, hash: map<int, Node>, i: nat, e: Node)
    requires KeyedById(hash) && KeysIndexed(keys, hash) && i < |keys| && e.id in hash
    ensures keys[i] in hash && KeysIndexed(keys[..i + 1], hash) && KeysIndexed(keys[..i], hash)
    ensures LinkedData(keys[..i + 1], hash, e) ==
      if hash[keys[i]].parent == e.id && hash[e.id] == e
      then Some(LinkedData(keys[..i], hash, e).GetOr([]) + [hash[keys[i]]])
      else LinkedData(keys[..i], hash, e)
  {
    ChildrenStep(keys, hash, i, e.id);
    var before := ChildrenOf(keys[..i], hash, e.id);
    if hash[e.id] == e {
      if hash[keys[i]].parent == e.id {
        PushOne(LinkedData(keys[..i], hash, e), before, hash[keys[i]]);
      } else {
        assert before + [] == before;
      }
    }
  }

  /** Pushing onto a `data` list created on the first push is appending to the children seen so far. */
  lemma PushOne(data: Option<seq<Node>>, cs: seq<Node>, node: Node)
    requires data == AppendChildren(None, cs)
    ensures Some(data.GetOr([]) + [node]) == AppendChildren(None, cs + [node])
  {
    if cs == [] {
      assert [] + [node] == cs + [node];
    }
  }

  /**
    `Tree.prototype._dataToTree`: copies the records, indexes the copies by
    id, links them, and builds the root object from the root list.
   */
  method DataToTree(data: seq<Record>, parentField: string)
    returns (tree: RootObj, elements: seq<Node>, keys: seq<int>, hash: map<int, Node>)
    ensures |elements| == |data| && Distinct(elements)
    ensures forall i :: 0 <= i < |data| ==>
      fresh(elements[i]) && elements[i].id == data[i].id && elements[i].parent == data[i].parent
      && !elements[i].hasChildren
    ensures keys == KeyOrder(elements) && hash == Index(elements)
    ensures KeyedById(hash) && KeysIndexed(keys, hash) && DistinctKeys(keys)
    ensures forall k :: k in hash ==> k in keys && hash[k] in elements
    ensures forall e :: e in elements ==> e.id in hash
    ensures forall e :: e in elements ==> e.data == LinkedData(keys, hash, e)
    ensures tree == RootObjFor(|RootKeys(keys, hash)|, parentField, elements)
  {
    elements := CloneRecords(data);
    keys, hash := ArrayToHash(elements);
    IndexKeys(elements);
    KeyOrderSpec(elements);
    var rootElements := LinkRecords(elements, keys, hash);
    tree := BuildRootObj(rootElements, parentField, elements);
  }

  /**
    The last loop of `_dataToTree`: `rootObj` gets the parent-id field and a
    `data` list holding every entry of the root list; `{}` when that list is empty.
   */
  method BuildRootObj(rootElements: seq<seq<Node>>, parentField: string, elements: seq<Node>)
    returns (rootObj: RootObj)
    requires forall j :: 0 <= j < |rootElements| ==> rootElements[j] == elements
    ensures rootObj == RootObjFor(|rootElements|, parentField, elements)
  {
    rootObj := RootObj(None, None);
    for i := 0 to |rootElements|
      invariant rootObj == RootObjFor(i, parentField, elements)
    {
      // rootObj[parent field] = rootElements[0][parent field], an array's property: undefined
      assert seq(i + 1, _ => elements) == seq(i, _ => elements) + [elements];
      rootObj := RootObj(Some(parentField), Some(rootObj.data.GetOr([]) + [rootElements[i]]));
    }
  }

  /** What `getItemChildren` does to a selected record: its `data` goes, recorded as has-children. */
  method Collapse(element: Node)
    modifies element
    ensures element.data.None?
    ensures element.hasChildren == (old(element.hasChildren) || old(element.data).Some?)
  {
    if element.data.Some? {
      element.data := None;
      element.hasChildren := true;
    }
  }

  /** Record `e` went through `Collapse` since the old state. */
  twostate predicate Collapsed(e: Node)
    reads e
  {
    e.data.None? && e.hasChildren == (old(e.hasChildren) || old(e.data).Some?)
  }

  /** Record `e` has the `data` and has-children flag it had in the old state. */
  twostate predicate Untouched(e: Node)
    reads e
  {
    e.data == old(e.data) && e.hasChildren == old(e.hasChildren)
  }

  /** Whether `getItemChildren(itemId)` selects record `e`. */
  predicate Matches(e: Node, itemId: int) {
    || (itemId == ROOT_TREE_ID && e.parent == itemId)
    || (itemId != ROOT_TREE_ID && e.id == itemId)
  }

  /** The records of `es` that `getItemChildren(itemId)` selects, in array order. */
  function Matching(es: seq<Node>, itemId: int): seq<Node> {
    if es == [] then []
    else
      var last := es[|es| - 1];
      Matching(es[..|es| - 1], itemId) + if Matches(last, itemId) then [last] else []
  }

  /** The selection holds exactly the selected records of `es`, and no record more often than `es` does. */
  lemma {:induction false} MatchingSpec(es: seq<Node>, itemId: int)
    ensures forall x :: x in Matching(es, itemId) ==> x in es && Matches(x, itemId)
    ensures forall i :: 0 <= i < |es| && Matches(es[i], itemId) ==> es[i] in Matching(es, itemId)
    ensures |Matching(es, itemId)| <= |es|
    ensures Distinct(es) ==> Distinct(Matching(es, itemId))
  {
    if es != [] {
      var n := |es| - 1;
      var init := es[..n];
      MatchingSpec(init, itemId);
      forall i | 0 <= i < |es| && Matches(es[i], itemId) ensures es[i] in Matching(es, itemId) {
        if i < n { assert es[i] == init[i]; }
      }
      if Distinct(es) {
        assert es[n] !in init;
        DistinctConcat(Matching(init, itemId), if Matches(es[n], itemId) then [es[n]] else []);
      }
    }
  }

  class Tree {
    const fieldId: string
    const fieldParentId: string
    const fieldChildren: string
    /** `this._elements`: the copied record array. */
    const elements: seq<Node>
    /** The visiting order of `this._elementsHash`. */
    const keys: seq<int>
    /** `this._elementsHash`. */
    const hash: map<int, Node>
    /** What `get()` returns. */
    const tree: RootObj

    /**
      The index holds records of the array under their own ids, each key
      visited once, and every record's `data` is either absent or the full
      list of its children.
     */
    ghost predicate Valid()
      reads set e | e in elements
    {
      && Indexed()
      && (forall e :: e in elements ==> e.data.None? || e.data == LinkedData(keys, hash, e))
    }

    /** The part of `Valid` that no change to a record's fields can affect. */
    ghost predicate Indexed() {
      && Distinct(elements)
      && KeyedById(hash) && KeysIndexed(keys, hash) && DistinctKeys(keys)
      && (forall k :: k in hash ==> k in keys && hash[k] in elements)
      && (forall e :: e in elements ==> e.id in hash)
      && tree == RootObjFor(|RootKeys(keys, hash)|, fieldParentId, elements)
    }

    /** Every record carries the full list of its children: the state right after construction. */
    ghost predicate FullyLinked()
      reads set e | e in elements
      requires Valid()
    {
      forall e :: e in elements ==> e.data == LinkedData(keys, hash, e)
    }

    /** `new Tree(data, fields)`. */
    constructor (data: seq<Record>, fields: FieldOptions)
      ensures fieldId == OrDefault(fields.id, "id")
      ensures fieldParentId == OrDefault(fields.parentId, "parent_id")
      ensures fieldChildren == OrDefault(fields.children, "children")
      ensures keys == KeyOrder(elements) && hash == Index(elements)
      ensures Valid() && FullyLinked()
      ensures |elements| == |data|
      ensures forall i :: 0 <= i < |data| ==>
        fresh(elements[i]) && elements[i].id == data[i].id && elements[i].parent == data[i].parent
        && !elements[i].hasChildren
      ensures tree == RootObjFor(|RootKeys(keys, hash)|, fieldParentId, elements)
    {
      var parentField := OrDefault(fields.parentId, "parent_id");
      fieldId := OrDefault(fields.id, "id");
      fieldParentId := parentField;
      fieldChildren := OrDefault(fields.children, "children");
      var t, els, ks, h := DataToTree(data, parentField);
      elements, keys, hash, tree := els, ks, h, t;
    }

    /**
      `get()`: no `data` list when no record is a root; otherwise the parent
      field and one entry per root, each the whole record array.
     */
    function Get(): (r: RootObj)
      requires Indexed()
      ensures r.data.None? <==> RootKeys(keys, hash) == []
      ensures r.data.None? ==> r.parentField.None?
      ensures r.data.Some? ==>
        && r.parentField == Some(fieldParentId)
        && |r.data.value| == |RootKeys(keys, hash)|
        && forall i :: 0 <= i < |r.data.value| ==> r.data.value[i] == elements
    {
      tree
    }

    /** The `data` list of `n`, or `[]` (`parentElement.data || []`). */
    function Kids(n: Node): seq<Node>
      reads n
    {
      n.data.GetOr([])
    }

    /** `rank` witnesses that following parent ids never cycles. */
    ghost predicate Ranked(rank: map<int, nat>) {
      && (forall k :: k in hash ==> k in rank)
      && (forall k :: k in hash && hash[k].parent in hash ==> rank[k] < rank[hash[k].parent])
    }

    /** The records listed under an indexed record `n` are indexed children of `n`, ranked below it. */
    lemma KidsSpec(n: Node, rank: map<int, nat>)
      requires Valid() && Ranked(rank)
      requires n.id in hash && hash[n.id] == n
      ensures forall c :: c in Kids(n) ==> c.parent == n.id
      ensures Listed(Kids(n), rank, rank[n.id])
      ensures Distinct(Kids(n))
    {
      assert n in elements;
      ChildrenDistinct(keys, hash, n.id);
    }

    /** Every record of `cs` is the indexed record for its id and is ranked below `bound`. */
    ghost predicate Listed(cs: seq<Node>, rank: map<int, nat>, bound: nat)
      requires Ranked(rank)
    {
      forall c :: c in cs ==> c.id in hash && hash[c.id] == c && rank[c.id] < bound
    }

    /** The list `_findBranchElements` pushes for the records `cs`: each one, then its own branch. */
    ghost function Walk(cs: seq<Node>, rank: map<int, nat>, bound: nat): seq<Node>
      requires Valid() && Ranked(rank)
      requires Listed(cs, rank, bound)
      reads set e | e in elements
      decreases bound, |cs|
    {
      if cs == [] then []
      else
        var last := cs[|cs| - 1];
        assert last in cs && hash[last.id] in elements;
        assert forall c :: c in cs[..|cs| - 1] ==> c in cs;
        KidsSpec(last, rank);
        Walk(cs[..|cs| - 1], rank, bound) + [last] + Walk(Kids(last), rank, rank[last.id])
    }

    /** Following parent ids upwards from the record with id `k` reaches the record with id `r`. */
    ghost predicate Under(rank: map<int, nat>, k: int, r: int)
      requires Ranked(rank) && k in hash && r in hash
      decreases if rank[k] <= rank[r] then rank[r] - rank[k] else 0
    {
      || k == r
      || (hash[k].parent in hash && rank[hash[k].parent] <= rank[r] && Under(rank, hash[k].parent, r))
    }

    /** Ranks grow strictly along a path upwards. */
    lemma UnderRank(rank: map<int, nat>, k: int, r: int)
      requires Ranked(rank) && k in hash && r in hash && Under(rank, k, r)
      ensures rank[k] <= rank[r]
      ensures k != r ==> rank[k] < rank[r]
    {
    }

    /** A record's parent lies above it. */
    lemma ChildUnder(rank: map<int, nat>, k: int)
      requires Ranked(rank) && k in hash && hash[k].parent in hash
      ensures Under(rank, k, hash[k].parent)
    {
      assert Under(rank, hash[k].parent, hash[k].parent);
    }

    /** Paths upwards compose. */
    lemma {:induction false} UnderTrans(rank: map<int, nat>, x: int, y: int, z: int)
      requires Ranked(rank) && x in hash && y in hash && z in hash
      requires Under(rank, x, y) && Under(rank, y, z)
      ensures Under(rank, x, z)
      decreases rank[y] - rank[x]
    {
      if x != y {
        var p := hash[x].parent;
        UnderRank(rank, x, y);
        UnderTrans(rank, p, y, z);
        UnderRank(rank, p, z);
      }
    }

    /** Two records above a common record lie on one path: one is above the other. */
    lemma {:induction false} UnderLinear(rank: map<int, nat>, x: int, a: int, b: int)
      requires Ranked(rank) && x in hash && a in hash && b in hash
      ensures Under(rank, x, a) && Under(rank, x, b) ==> Under(rank, a, b) || Under(rank, b, a)
      decreases if rank[x] <= rank[a] then rank[a] - rank[x] else 0
    {
      if Under(rank, x, a) && Under(rank, x, b) && x != a && x != b {
        var p := hash[x].parent;
        UnderRank(rank, x, a);
        UnderLinear(rank, p, a, b);
      }
    }

    /** No record in `cs` is listed twice or lies below another one of them. */
    ghost predicate Antichain(cs: seq<Node>, rank: map<int, nat>)
      requires Ranked(rank)
      requires forall c :: c in cs ==> c.id in hash
    {
      forall i, j :: 0 <= i < |cs| && 0 <= j < |cs| && i != j ==>
        cs[i] != cs[j] && !Under(rank, cs[i].id, cs[j].id)
    }

    /** Siblings form an antichain. */
    lemma KidsAntichain(n: Node, rank: map<int, nat>)
      requires Valid() && Ranked(rank)
      requires n.id in hash && hash[n.id] == n
      ensures forall c :: c in Kids(n) ==> c.id in hash
      ensures Antichain(Kids(n), rank)
    {
      KidsSpec(n, rank);
      var cs := Kids(n);
      forall i, j | 0 <= i < |cs| && 0 <= j < |cs| && i != j
        ensures cs[i] != cs[j] && !Under(rank, cs[i].id, cs[j].id)
      {
        assert cs[i] in cs && cs[j] in cs;
        assert cs[i].id != cs[j].id;
        assert rank[cs[j].id] < rank[n.id];
      }
    }

    /** Every record the walk lists is indexed, ranked below `bound` and lies below `a` when all of `cs` do. */
    lemma {:induction false} WalkSound(cs: seq<Node>, rank: map<int, nat>, bound: nat, a: int)
      requires Valid() && Ranked(rank) && a in hash
      requires Listed(cs, rank, bound)
      requires forall c :: c in cs ==> Under(rank, c.id, a)
      ensures forall x :: x in Walk(cs, rank, bound) ==>
        x.id in hash && hash[x.id] == x && rank[x.id] < bound && Under(rank, x.id, a)
      decreases bound, |cs|
    {
      if cs != [] {
        var last := cs[|cs| - 1];
        var init := cs[..|cs| - 1];
        assert last in cs;
        assert forall c :: c in init ==> c in cs;
        KidsSpec(last, rank);
        forall c | c in Kids(last) ensures Under(rank, c.id, a) {
          ChildUnder(rank, c.id);
          UnderTrans(rank, c.id, last.id, a);
        }
        WalkSound(init, rank, bound, a);
        WalkSound(Kids(last), rank, rank[last.id], a);
      }
    }

    /** Every record the walk lists lies below one of `cs`. */
    lemma {:induction false} WalkUnderSome(cs: seq<Node>, rank: map<int, nat>, bound: nat, x: Node)
      requires Valid() && Ranked(rank)
      requires Listed(cs, rank, bound)
      requires x in Walk(cs, rank, bound)
      ensures x.id in hash && exists j :: 0 <= j < |cs| && Under(rank, x.id, cs[j].id)
      decreases bound, |cs|
    {
      var last := cs[|cs| - 1];
      var init := cs[..|cs| - 1];
      assert last in cs;
      assert forall c :: c in init ==> c in cs;
      KidsSpec(last, rank);
      if x in Walk(init, rank, bound) {
        WalkUnderSome(init, rank, bound, x);
        var j :| 0 <= j < |init| && Under(rank, x.id, init[j].id);
        assert init[j] == cs[j];
      } else if x == last {
        assert Under(rank, x.id, cs[|cs| - 1].id);
      } else {
        forall c | c in Kids(last) ensures Under(rank, c.id, last.id) {
          ChildUnder(rank, c.id);
        }
        WalkSound(Kids(last), rank, rank[last.id], last.id);
        assert Under(rank, x.id, cs[|cs| - 1].id);
      }
    }

    /** Over an antichain the walk lists no record twice. */
    lemma {:induction false} WalkDistinct(cs: seq<Node>, rank: map<int, nat>, bound: nat)
      requires Valid() && Ranked(rank)
      requires Listed(cs, rank, bound)
      requires Antichain(cs, rank)
      ensures Distinct(Walk(cs, rank, bound))
      decreases bound, |cs|
    {
      if cs != [] {
        var n := |cs| - 1;
        var last := cs[n];
        var init := cs[..n];
        assert last in cs;
        assert forall c :: c in init ==> c in cs;
        KidsSpec(last, rank);
        KidsAntichain(last, rank);
        WalkDistinct(init, rank, bound);
        WalkDistinct(Kids(last), rank, rank[last.id]);
        var a := Walk(init, rank, bound);
        var b := Walk(Kids(last), rank, rank[last.id]);
        WalkApart(cs, rank, bound, n);
        DistinctConcat(a, [last]);
        DistinctConcat(a + [last], b);
      }
    }

    /** Over an antichain, the walk of all but the last record meets neither the last record nor its branch. */
    lemma WalkApart(cs: seq<Node>, rank: map<int, nat>, bound: nat, n: nat)
      requires Valid() && Ranked(rank) && n + 1 == |cs|
      requires Listed(cs, rank, bound)
      requires Antichain(cs, rank)
      ensures Listed(cs[..n], rank, bound)
      ensures cs[n].id in hash && hash[cs[n].id] == cs[n]
      ensures Listed(Kids(cs[n]), rank, rank[cs[n].id])
      ensures cs[n] !in Walk(Kids(cs[n]), rank, rank[cs[n].id])
      ensures forall x :: x in Walk(cs[..n], rank, bound) ==>
        x != cs[n] && x !in Walk(Kids(cs[n]), rank, rank[cs[n].id])
    {
      var last := cs[n];
      var init := cs[..n];
      assert last in cs;
      ListedPrefix(cs, rank, bound, n);
      KidsSpec(last, rank);
      var a := Walk(init, rank, bound);
      var b := Walk(Kids(last), rank, rank[last.id]);
      forall c | c in Kids(last) ensures Under(rank, c.id, last.id) {
        ChildUnder(rank, c.id);
      }
      WalkSound(Kids(last), rank, rank[last.id], last.id);
      forall x | x in a ensures x != last && x !in b {
        WalkUnderSome(init, rank, bound, x);
        var j :| 0 <= j < |init| && Under(rank, x.id, init[j].id);
        assert init[j] == cs[j] && j != n;
        assert !Under(rank, cs[n].id, cs[j].id) && !Under(rank, cs[j].id, cs[n].id);
        UnderLinear(rank, x.id, last.id, cs[j].id);
      }
    }

    /** Every record in `cs` is in the walk. */
    lemma {:induction false} WalkContains(cs: seq<Node>, rank: map<int, nat>, bound: nat)
      requires Valid() && Ranked(rank)
      requires Listed(cs, rank, bound)
      ensures forall c :: c in cs ==> c in Walk(cs, rank, bound)
      decreases |cs|
    {
      if cs != [] {
        var init := cs[..|cs| - 1];
        assert forall c :: c in init ==> c in cs;
        assert forall c :: c in cs ==> c in init || c == cs[|cs| - 1];
        WalkContains(init, rank, bound);
      }
    }

    /** The walk is closed under taking the listed children of a record it contains. */
    lemma {:induction false} WalkClosed(cs: seq<Node>, rank: map<int, nat>, bound: nat, y: Node, c: Node)
      requires Valid() && Ranked(rank)
      requires Listed(cs, rank, bound)
      requires y in Walk(cs, rank, bound) && c in Kids(y)
      ensures c in Walk(cs, rank, bound)
      decreases bound, |cs|
    {
      var last := cs[|cs| - 1];
      var init := cs[..|cs| - 1];
      assert last in cs;
      assert forall c :: c in init ==> c in cs;
      KidsSpec(last, rank);
      if y in Walk(init, rank, bound) {
        WalkClosed(init, rank, bound, y, c);
      } else if y == last {
        WalkContains(Kids(last), rank, rank[last.id]);
      } else {
        WalkClosed(Kids(last), rank, rank[last.id], y, c);
      }
    }

    /** `_getElementById(id)`: the indexed record with that id, or null. */
    method GetElementById(id: int) returns (r: Option<Node>)
      requires Valid()
      ensures r == if id in hash then Some(hash[id]) else None
    {
      for i := 0 to |keys|
        invariant id !in keys[..i]
      {
        if keys[i] == id {
          var k := keys[i];
          assert k in keys;
          return Some(hash[k]);
        }
      }
      assert keys[..|keys|] == keys;
      return None;
    }

    /** Extending the walk over `cs[..i]` by `cs[i]` and its own branch gives the walk over `cs[..i + 1]`. */
    lemma WalkSnoc(cs: seq<Node>, rank: map<int, nat>, bound: nat, i: nat, prefix: seq<Node>)
      requires Valid() && Ranked(rank) && i < |cs|
      requires Listed(cs, rank, bound)
      ensures Listed(cs[..i], rank, bound) && Listed(cs[..i + 1], rank, bound)
      ensures cs[i].id in hash && hash[cs[i].id] == cs[i]
      ensures Listed(Kids(cs[i]), rank, rank[cs[i].id])
      ensures prefix + Walk(cs[..i], rank, bound) + [cs[i]] + Walk(Kids(cs[i]), rank, rank[cs[i].id]) ==
        prefix + Walk(cs[..i + 1], rank, bound)
    {
      ListedPrefix(cs, rank, bound, i);
      ListedPrefix(cs, rank, bound, i + 1);
      var c := cs[i];
      assert c in cs;
      KidsSpec(c, rank);
      var s := cs[..i + 1];
      assert s[..|s| - 1] == cs[..i] && s[|s| - 1] == c;
      var w := Walk(cs[..i], rank, bound);
      var k := Walk(Kids(c), rank, rank[c.id]);
      assert Walk(s, rank, bound) == w + [c] + k;
      assert prefix + w + [c] + k == prefix + (w + [c] + k);
    }

    /** Every prefix of a listed sequence is listed. */
    lemma ListedPrefix(cs: seq<Node>, rank: map<int, nat>, bound: nat, n: nat)
      requires Ranked(rank) && Listed(cs, rank, bound) && n <= |cs|
      ensures Listed(cs[..n], rank, bound)
    {
      assert forall x :: x in cs[..n] ==> x in cs;
    }

    /** `_findBranchElements(parentElement)`, with the outer `branchElements` array passed through. */
    method FindBranchElements(parentElement: Node, branchElements: seq<Node>, ghost rank: map<int, nat>)
      returns (branch: seq<Node>)
      requires Valid() && Ranked(rank)
      requires parentElement.id in hash && hash[parentElement.id] == parentElement
      ensures branch == branchElements + Walk(Kids(parentElement), rank, rank[parentElement.id])
      decreases rank[parentElement.id]
    {
      KidsSpec(parentElement, rank);
      var els := Kids(parentElement);
      ghost var bound := rank[parentElement.id];
      branch := branchElements;
      assert els[..0] == [];
      for i := 0 to |els|
        invariant Listed(els[..i], rank, bound)
        invariant branch == branchElements + Walk(els[..i], rank, bound)
      {
        WalkSnoc(els, rank, bound, i, branchElements);
        var element := els[i];
        branch := branch + [element];
        branch := FindBranchElements(element, branch, rank);
      }
      assert els[..|els|] == els;
    }

    /**
      `getBranchElements(rootId)`: the record with id `rootId`, then its
      descendants in pre-order. None stands for the TypeError thrown when no
      index key equals `rootId`.
     */
    method GetBranchElements(rootId: int, ghost rank: map<int, nat>) returns (r: Option<seq<Node>>)
      requires Valid() && Ranked(rank)
      ensures r.None? <==> rootId !in hash
      ensures rootId in hash ==> r == Some([hash[rootId]] + Walk(Kids(hash[rootId]), rank, rank[rootId]))
    {
      var rootElement := GetElementById(rootId);
      if rootElement.None? {
        return None;
      }
      var branchElements := [rootElement.value];
      branchElements := FindBranchElements(rootElement.value, branchElements, rank);
      return Some(branchElements);
    }

    /** On a fully linked tree every record below `root` is in its branch. */
    lemma {:induction false} BranchComplete(root: Node, rank: map<int, nat>, k: int)
      requires Valid() && FullyLinked() && Ranked(rank)
      requires root.id in hash && hash[root.id] == root
      requires k in hash && Under(rank, k, root.id)
      ensures hash[k] in [root] + Walk(Kids(root), rank, rank[root.id])
      decreases rank[root.id] - rank[k]
    {
      KidsSpec(root, rank);
      if k != root.id {
        var p := hash[k].parent;
        UnderRank(rank, k, root.id);
        BranchComplete(root, rank, p);
        var y := hash[p];
        assert y in elements;
        ChildrenOfComplete(keys, hash, p);
        assert k in keys;
        assert hash[k] in ChildrenOf(keys, hash, p);
        assert y.data == LinkedData(keys, hash, y);
        assert hash[k] in Kids(y);
        if y == root {
          WalkContains(Kids(root), rank, rank[root.id]);
        } else {
          WalkClosed(Kids(root), rank, rank[root.id], y, hash[k]);
        }
      }
    }

    /**
      On a fully linked tree the branch of a record lists the record and
      every record below it, and lists each of them once.
     */
    lemma BranchExact(root: Node, rank: map<int, nat>)
      requires Valid() && FullyLinked() && Ranked(rank)
      requires root.id in hash && hash[root.id] == root
      ensures Distinct([root] + Walk(Kids(root), rank, rank[root.id]))
      ensures forall x: Node :: x in [root] + Walk(Kids(root), rank, rank[root.id]) <==>
        x.id in hash && hash[x.id] == x && Under(rank, x.id, root.id)
    {
      KidsSpec(root, rank);
      var w := Walk(Kids(root), rank, rank[root.id]);
      KidsAntichain(root, rank);
      WalkDistinct(Kids(root), rank, rank[root.id]);
      forall c | c in Kids(root) ensures Under(rank, c.id, root.id) {
        ChildUnder(rank, c.id);
      }
      WalkSound(Kids(root), rank, rank[root.id], root.id);
      DistinctConcat([root], w);
      assert Under(rank, root.id, root.id);
      forall x: Node | x.id in hash && hash[x.id] == x && Under(rank, x.id, root.id)
        ensures x in [root] + w
      {
        BranchComplete(root, rank, x.id);
      }
    }

    /**
      `getItemChildren(itemId)`: the stored records `Matches` selects, in array
      order; each selected record that has `data` loses it and gets its
      has-children field set. The deep copy the source makes first is never
      used and is not modelled.
     */
    method GetItemChildren(itemId: int) returns (node: ItemNode)
      requires Valid()
      modifies set e | e in elements
      ensures Valid()
      ensures node == ItemNode(fieldParentId, itemId, Matching(elements, itemId))
      ensures forall j :: 0 <= j < |elements| && Matches(elements[j], itemId) ==> Collapsed(elements[j])
      ensures forall j :: 0 <= j < |elements| && !Matches(elements[j], itemId) ==> Untouched(elements[j])
    {
      ghost var before := RecordStates();
      var children := [];
      for i := 0 to |elements|
        invariant Valid()
        invariant children == Matching(elements[..i], itemId)
        invariant VisitedUpTo(before, i, itemId)
      {
        assert elements[..i + 1][..i] == elements[..i];
        children := Visit(itemId, i, children, before);
      }
      assert elements[..|elements|] == elements;
      node := ItemNode(fieldParentId, itemId, children);
    }

    /** The `data` and has-children field of every stored record, in array order. */
    ghost function RecordStates(): (r: seq<(Option<seq<Node>>, bool)>)
      reads set e | e in elements
      ensures |r| == |elements|
      ensures forall j :: 0 <= j < |elements| ==> r[j] == (elements[j].data, elements[j].hasChildren)
    {
      seq(|elements|, j requires 0 <= j < |elements| reads elements => (elements[j].data, elements[j].hasChildren))
    }

    /**
      The loop of `getItemChildren` has passed the first `i` records: those
      it selected are collapsed from their fields in `before`, the rest keep them.
     */
    ghost predicate VisitedUpTo(before: seq<(Option<seq<Node>>, bool)>, i: nat, itemId: int)
      reads set e | e in elements
    {
      && |before| == |elements|
      && forall j :: 0 <= j < |elements| ==>
        (elements[j].data, elements[j].hasChildren) ==
          if j < i && Matches(elements[j], itemId) then (None, before[j].1 || before[j].0.Some?) else before[j]
    }

    /** One pass of the loop of `getItemChildren`, over the record at position `i`. */
    method Visit(itemId: int, i: nat, children: seq<Node>, ghost before: seq<(Option<seq<Node>>, bool)>)
      returns (children': seq<Node>)
      requires Valid() && i < |elements| && VisitedUpTo(before, i, itemId)
      modifies elements[i]
      ensures Valid() && VisitedUpTo(before, i + 1, itemId)
      ensures children' == children + if Matches(elements[i], itemId) then [elements[i]] else []
    {
      var element := elements[i];
      children' := children;
      if Matches(element, itemId) {
        Collapse(element);
        children' := children + [element];
      }
      forall j | 0 <= j < |elements| && j != i ensures elements[j] != element {
        assert elements[j] != elements[i];
      }
    }
  }
}
