/**
  Insertion-ordered dictionaries keyed by strings. They model the own enumerable
  properties of a JavaScript object in the order a `for-in` loop visits them
  (the model keeps insertion order throughout; JavaScript's rule that
  integer-like keys come first is not modelled).
 */
module OrderedMap {
  import opened Wrappers

  type Dict<V> = seq<(string, V)>

  /** The keys of `m`, in order. */
  function Keys<V>(m: Dict<V>): (ks: seq<string>)
    ensures |ks| == |m|
    ensures forall i :: 0 <= i < |m| ==> ks[i] == m[i].0
  {
    seq(|m|, i requires 0 <= i < |m| => m[i].0)
  }

  /** `m.hasOwnProperty(k)` */
  predicate HasKey<V>(m: Dict<V>, k: string) {
    k in Keys(m)
  }

  /** Every key occurs once, as in a JavaScript object. */
  predicate NoDupKeys<V>(m: Dict<V>) {
    forall i, j :: 0 <= i < j < |m| ==> m[i].0 != m[j].0
  }

  /** The position of the first entry with key `k`. */
  function Find<V>(m: Dict<V>, k: string): (r: Option<nat>)
    ensures r.Some? ==> r.value < |m| && m[r.value].0 == k
    ensures r.Some? ==> forall j :: 0 <= j < r.value ==> m[j].0 != k
    ensures r.None? <==> !HasKey(m, k)
  {
    if m == [] then None
    else if m[0].0 == k then Some(0)
    else
      match Find(m[1..], k)
      case None => assert Keys(m) == [m[0].0] + Keys(m[1..]); None
      case Some(i) => Some(i + 1)
  }

  /** `m[k]` for an own key `k`, or None. */
  function Get<V>(m: Dict<V>, k: string): (r: Option<V>)
    ensures r.Some? <==> HasKey(m, k)
    ensures r.Some? ==> exists i :: 0 <= i < |m| && m[i] == (k, r.value)
  {
    match Find(m, k)
    case None => None
    case Some(i) => Some(m[i].1)
  }

  /** Two dictionaries with the same keys at the same positions find every key at the same position. */
  lemma {:induction false} FindSameKeys<V, W>(m: Dict<V>, n: Dict<W>, k: string)
    requires Keys(m) == Keys(n)
    ensures Find(m, k) == Find(n, k)
  {
    if m != [] {
      assert Keys(m[1..]) == Keys(m)[1..] && Keys(n[1..]) == Keys(n)[1..];
      FindSameKeys(m[1..], n[1..], k);
    }
  }

  /** Appending an entry with key `k` does not change where any other key is found. */
  lemma {:induction false} FindAppend<V>(m: Dict<V>, e: (string, V), k: string)
    requires e.0 != k
    ensures Find(m + [e], k) == Find(m, k)
  {
    if m != [] {
      assert (m + [e])[1..] == m[1..] + [e];
      FindAppend(m[1..], e, k);
    }
  }

  /** `m[k] = v`: an existing key keeps its position, a new key is appended. */
  function Put<V>(m: Dict<V>, k: string, v: V): (r: Dict<V>)
    ensures Get(r, k) == Some(v)
    ensures forall k' {:trigger Get(r, k')} :: k' != k ==> Get(r, k') == Get(m, k')
    ensures HasKey(m, k) ==> Keys(r) == Keys(m)
    ensures !HasKey(m, k) ==> r == m + [(k, v)]
  {
    match Find(m, k)
    case Some(i) =>
      PutExisting(m, i, k, v);
      m[i := (k, v)]
    case None =>
      PutAppend(m, k, v);
      m + [(k, v)]
  }

  /** Overwriting the entry at the position of key `k`. */
  lemma PutExisting<V>(m: Dict<V>, i: nat, k: string, v: V)
    requires Find(m, k) == Some(i)
    ensures Get(m[i := (k, v)], k) == Some(v)
    ensures forall k' {:trigger Get(m[i := (k, v)], k')} :: k' != k ==> Get(m[i := (k, v)], k') == Get(m, k')
    ensures Keys(m[i := (k, v)]) == Keys(m)
  {
    var r := m[i := (k, v)];
    assert Keys(r) == Keys(m);
    forall k' ensures Find(r, k') == Find(m, k') { FindSameKeys(r, m, k'); }
  }

  /** Appending an entry under a key `m` lacks. */
  lemma PutAppend<V>(m: Dict<V>, k: string, v: V)
    requires Find(m, k).None?
    ensures Get(m + [(k, v)], k) == Some(v)
    ensures forall k' {:trigger Get(m + [(k, v)], k')} :: k' != k ==> Get(m + [(k, v)], k') == Get(m, k')
  {
    var r := m + [(k, v)];
    forall k' | k' != k ensures Find(r, k') == Find(m, k') { FindAppend(m, (k, v), k'); }
    assert Find(r, k) == Some(|m|) by {
      assert r[|m|].0 == k;
      assert forall j :: 0 <= j < |m| ==> r[j].0 == m[j].0;
    }
  }

  /** Looking up a key in a dictionary that starts with entry `e`. */
  lemma GetCons<V>(e: (string, V), s: Dict<V>, k: string)
    ensures Get([e] + s, k) == if e.0 == k then Some(e.1) else Get(s, k)
    ensures HasKey([e] + s, k) <==> e.0 == k || HasKey(s, k)
  {
    var m := [e] + s;
    assert m[1..] == s;
    if e.0 != k {
      FindCons(e, s, k);
    }
  }

  /** Where a key other than the first is found in a dictionary that starts with entry `e`. */
  lemma FindCons<V>(e: (string, V), s: Dict<V>, k: string)
    requires e.0 != k
    ensures Find([e] + s, k) == match Find(s, k) case None => None case Some(i) => Some(i + 1)
  {
    assert ([e] + s)[1..] == s;
  }

  /** `delete m[k]`: every entry with key `k` goes, the rest keep their order. */
  function Remove<V>(m: Dict<V>, k: string): (r: Dict<V>)
    ensures !HasKey(r, k)
    ensures forall k' {:trigger Get(r, k')} :: k' != k ==> Get(r, k') == Get(m, k')
    ensures forall k' {:trigger HasKey(r, k')} :: HasKey(r, k') <==> k' != k && HasKey(m, k')
    ensures !HasKey(m, k) ==> r == m
  {
    if m == [] then []
    else
      var rest := Remove(m[1..], k);
      var r := if m[0].0 == k then rest else [m[0]] + rest;
      assert m == [m[0]] + m[1..];
      forall k' ensures k' != k ==> Get(r, k') == Get(m, k')
        ensures HasKey(r, k') <==> k' != k && HasKey(m, k')
      {
        GetCons(m[0], m[1..], k');
        if m[0].0 != k { GetCons(m[0], rest, k'); }
      }
      r
  }

  /** Removing a key keeps the keys of a well-formed dictionary distinct. */
  lemma {:induction false} RemoveNoDup<V>(m: Dict<V>, k: string)
    requires NoDupKeys(m)
    ensures NoDupKeys(Remove(m, k))
  {
    if m != [] {
      forall i, j | 0 <= i < j < |m| - 1 ensures m[1..][i].0 != m[1..][j].0 {
        assert m[1..][i] == m[i + 1] && m[1..][j] == m[j + 1];
      }
      RemoveNoDup(m[1..], k);
      if m[0].0 != k {
        forall i | 0 <= i < |m| - 1 ensures Keys(m[1..])[i] != m[0].0 {
          assert m[1..][i] == m[i + 1];
        }
        ConsNoDup(m[0], Remove(m[1..], k));
      }
    }
  }

  /** An entry whose key is fresh can go in front of a well-formed dictionary. */
  lemma ConsNoDup<V>(e: (string, V), m: Dict<V>)
    requires NoDupKeys(m) && !HasKey(m, e.0)
    ensures NoDupKeys([e] + m)
  {
    forall j | 0 <= j < |m| ensures m[j].0 != e.0 {
      assert Keys(m)[j] == m[j].0;
    }
  }

  /** No value occurs twice. */
  predicate Injective(m: Dict<string>) {
    forall i, j :: 0 <= i < j < |m| ==> m[i].1 != m[j].1
  }

  /**
    `for (k in v) base[v[k]] = k`: `base` with every entry of `v` written in
    reverse, in the order of `v`.
   */
  function Invert(base: Dict<string>, v: Dict<string>): Dict<string> {
    if v == [] then base
    else Put(Invert(base, v[..|v| - 1]), v[|v| - 1].1, v[|v| - 1].0)
  }

  /** Over an injective dictionary, the inverse maps every value back to its key. */
  lemma {:induction false} InvertGet(base: Dict<string>, v: Dict<string>, i: nat)
    requires Injective(v) && i < |v|
    ensures Get(Invert(base, v), v[i].1) == Some(v[i].0)
  {
    if i + 1 < |v| {
      var init := v[..|v| - 1];
      InjectivePrefix(v, |v| - 1);
      InvertGet(base, init, i);
      InvertEarlier(base, v, i);
    } else {
      InvertLast(base, v);
    }
  }

  /** A vocabulary written in reverse leaves every name that is not one of its values as it was. */
  lemma {:induction false} InvertOther(base: Dict<string>, v: Dict<string>, k: string)
    requires forall i :: 0 <= i < |v| ==> v[i].1 != k
    ensures Get(Invert(base, v), k) == Get(base, k)
  {
    if v != [] {
      var n := |v| - 1;
      InvertOther(base, v[..n], k);
      PutOther(Invert(base, v[..n]), v[n].1, v[n].0, k);
    }
  }

  /** Writing the last entry in reverse keeps the reverse of an earlier one. */
  lemma InvertEarlier(base: Dict<string>, v: Dict<string>, i: nat)
    requires Injective(v) && i + 1 < |v|
    requires Get(Invert(base, v[..|v| - 1]), v[..|v| - 1][i].1) == Some(v[..|v| - 1][i].0)
    ensures Get(Invert(base, v), v[i].1) == Some(v[i].0)
  {
    var n := |v| - 1;
    assert v[..n][i] == v[i];
    assert v[i].1 != v[n].1;
    PutOther(Invert(base, v[..n]), v[n].1, v[n].0, v[i].1);
  }

  /** The last entry written in reverse is read back. */
  lemma InvertLast(base: Dict<string>, v: Dict<string>)
    requires v != []
    ensures Get(Invert(base, v), v[|v| - 1].1) == Some(v[|v| - 1].0)
  {
  }

  /** A prefix of an injective dictionary is injective. */
  lemma InjectivePrefix(v: Dict<string>, n: nat)
    requires Injective(v) && n <= |v|
    ensures Injective(v[..n])
  {
    forall a, b | 0 <= a < b < n ensures v[..n][a].1 != v[..n][b].1 {
      assert v[..n][a] == v[a] && v[..n][b] == v[b];
    }
  }

  /** Writing one key leaves the reading of every other key as it was. */
  lemma PutOther<V>(m: Dict<V>, k: string, v: V, k': string)
    requires k' != k
    ensures Get(Put(m, k, v), k') == Get(m, k')
  {
  }

  /** In a dictionary without repeated keys, each entry is what its key reads. */
  lemma GetNoDup<V>(m: Dict<V>, j: nat)
    requires NoDupKeys(m) && j < |m|
    ensures Get(m, m[j].0) == Some(m[j].1)
  {
    var f := Find(m, m[j].0);
    assert Keys(m)[j] == m[j].0;
    assert f.Some? && f.value == j;
  }

  /** A prefix of a dictionary without repeated keys has none either. */
  lemma NoDupPrefix<V>(m: Dict<V>, n: nat)
    requires NoDupKeys(m) && n <= |m|
    ensures NoDupKeys(m[..n])
  {
    forall a, b | 0 <= a < b < n ensures m[..n][a].0 != m[..n][b].0 {
      assert m[..n][a] == m[a] && m[..n][b] == m[b];
    }
  }

  /** Looking up a key in a dictionary without repeated keys that ends with entry `e`. */
  lemma GetSnoc<V>(m: Dict<V>, e: (string, V), k: string)
    requires NoDupKeys(m + [e])
    ensures Get(m + [e], k) == if e.0 == k then Some(e.1) else Get(m, k)
    ensures HasKey(m + [e], k) <==> e.0 == k || HasKey(m, k)
  {
    var r := m + [e];
    assert Keys(r) == Keys(m) + [e.0];
    if e.0 == k {
      GetNoDup(r, |m|);
    } else {
      FindAppend(m, e, k);
    }
  }

  /** The last key of a dictionary without repeated keys does not occur before it. */
  lemma SnocFresh<V>(m: Dict<V>, e: (string, V))
    requires NoDupKeys(m + [e])
    ensures Get(m, e.0) == None
  {
    forall j | 0 <= j < |m| ensures Keys(m)[j] != e.0 {
      assert (m + [e])[j] == m[j] && (m + [e])[|m|] == e;
    }
  }

  /** The value of the last entry with key `k`, searching from the end. */
  function GetLast<V>(m: Dict<V>, k: string): Option<V> {
    if m == [] then None
    else if m[|m| - 1].0 == k then Some(m[|m| - 1].1)
    else GetLast(m[..|m| - 1], k)
  }

  /** Without repeated keys, the last entry with a key is the only one. */
  lemma {:induction false} GetLastNoDup<V>(m: Dict<V>, k: string)
    requires NoDupKeys(m)
    ensures GetLast(m, k) == Get(m, k)
  {
    if m != [] {
      var n := |m| - 1;
      NoDupPrefix(m, n);
      GetLastNoDup(m[..n], k);
      assert m[..n] + [m[n]] == m;
      GetSnoc(m[..n], m[n], k);
    }
  }

  /** Reading the three distinct keys of a three-entry dictionary. */
  lemma GetThree<V>(a: string, b: string, c: string, x: V, y: V, z: V)
    requires a != b && a != c && b != c
    ensures Get([(a, x), (b, y), (c, z)], a) == Some(x)
    ensures Get([(a, x), (b, y), (c, z)], b) == Some(y)
    ensures Get([(a, x), (b, y), (c, z)], c) == Some(z)
  {
    GetCons((c, z), [], c);
    GetCons((b, y), [(c, z)], b);
    GetCons((b, y), [(c, z)], c);
    assert [(a, x), (b, y), (c, z)] == [(a, x)] + [(b, y), (c, z)];
    assert [(b, y), (c, z)] == [(b, y)] + [(c, z)];
    assert [(c, z)] == [(c, z)] + [];
    GetCons((a, x), [(b, y), (c, z)], a);
    GetCons((a, x), [(b, y), (c, z)], b);
    GetCons((a, x), [(b, y), (c, z)], c);
  }
}
