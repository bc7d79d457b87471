/**
  The field-mapping engine of handlers/DataHandler.js: the handler's scope,
  the reverse anchor lookup, the recursive key renaming of `mapData`, the
  field readers, the result envelopes built around storage replies, and the
  forest builder `getData` applies to tree collections.
 */
module DataHandler {
  import opened Wrappers
  import opened OrderedMap
  import opened JsValue
  import opened Records

  /**
    The `settings` the handler is built from. A vocabulary or anchor table is
    an object of strings; None stands for an absent or falsy one.
   */
  datatype Settings = Settings(
    dataType: Value,
    useOnlyMappedFields: Value,
    clientFields: Option<Dict<string>>,
    serverFields: Option<Dict<string>>,
    fieldsAnchors: Option<Dict<string>>)

  /** `this.scope`, without the storage object `model`. */
  datatype Scope = Scope(
    dataType: Value,
    useOnlyMappedFields: bool,
    clientFields: Dict<string>,
    serverFields: Dict<string>,
    fieldsAnchors: Dict<string>)

  /** `new DataHandler(settings)`; None is an absent or falsy `settings`. */
  function NewScope(settings: Option<Settings>): (scope: Scope)
    ensures scope.useOnlyMappedFields <==> settings.Some? && settings.value.useOnlyMappedFields == Bool(true)
    ensures scope.dataType == Null || Truthy(scope.dataType)
    ensures settings.Some? && Truthy(settings.value.dataType) ==> scope.dataType == settings.value.dataType
    ensures settings.None? ==> scope.clientFields == [] && scope.serverFields == [] && scope.fieldsAnchors == []
    ensures settings.Some? ==>
      && scope.clientFields == settings.value.clientFields.GetOr([])
      && scope.serverFields == settings.value.serverFields.GetOr([])
      && scope.fieldsAnchors == settings.value.fieldsAnchors.GetOr([])
  {
    match settings
    case None => Scope(Null, false, [], [], [])
    case Some(s) =>
      Scope(
        if Truthy(s.dataType) then s.dataType else Null,
        s.useOnlyMappedFields == Bool(true),
        s.clientFields.GetOr([]),
        s.serverFields.GetOr([]),
        s.fieldsAnchors.GetOr([]))
  }

  // ---------------------------------------------------------------- anchors

  /** The position of the first anchor whose configured value is `field`. */
  function AnchorIndex(anchors: Dict<string>, field: string): (r: Option<nat>)
    ensures r.Some? ==> r.value < |anchors| && anchors[r.value].1 == field
    ensures r.Some? ==> forall j :: 0 <= j < r.value ==> anchors[j].1 != field
    ensures r.None? <==> forall j :: 0 <= j < |anchors| ==> anchors[j].1 != field
  {
    if anchors == [] then None
    else if anchors[0].1 == field then Some(0)
    else
      match AnchorIndex(anchors[1..], field)
      case None =>
        assert forall j :: 1 <= j < |anchors| ==> anchors[j] == anchors[1..][j - 1];
        None
      case Some(i) => Some(i + 1)
  }

  /**
    `getFieldByAnchor(field)`: the role of the first anchor configured with
    the value `field`, or None for `null`.
   */
  function FieldByAnchor(anchors: Dict<string>, field: string): (role: Option<string>)
    ensures role.None? <==> forall j :: 0 <= j < |anchors| ==> anchors[j].1 != field
    ensures role.Some? ==> HasKey(anchors, role.value)
    ensures role.Some? && NoDupKeys(anchors) ==> Get(anchors, role.value) == Some(field)
  {
    match AnchorIndex(anchors, field)
    case None => None
    case Some(i) =>
      assert Keys(anchors)[i] == anchors[i].0;
      assert NoDupKeys(anchors) ==> Get(anchors, anchors[i].0) == Some(field) by {
        if NoDupKeys(anchors) { GetNoDup(anchors, i); }
      }
      Some(anchors[i].0)
  }

  /** The first anchor configured with `field` is the one the lookup finds. */
  lemma FirstAnchor(anchors: Dict<string>, field: string, i: nat)
    requires i < |anchors| && anchors[i].1 == field
    requires forall j :: 0 <= j < i ==> anchors[j].1 != field
    ensures AnchorIndex(anchors, field) == Some(i)
    ensures FieldByAnchor(anchors, field) == Some(anchors[i].0)
  {
    assert AnchorIndex(anchors, field).Some?;
  }

  /** The search loop of `getFieldByAnchor` over the scope's anchor table. */
  method GetFieldByAnchor(scope: Scope, field: string) returns (role: Option<string>)
    ensures role == FieldByAnchor(scope.fieldsAnchors, field)
  {
    var fieldsAnchors := scope.fieldsAnchors;
    for i := 0 to |fieldsAnchors|
      invariant forall j :: 0 <= j < i ==> fieldsAnchors[j].1 != field
    {
      if field == fieldsAnchors[i].1 {
        FirstAnchor(fieldsAnchors, field, i);
        return Some(fieldsAnchors[i].0);
      }
    }
    return None;
  }

  /** The looked-up role as a JavaScript value: a string, or `null`. */
  function RoleValue(role: Option<string>): Value {
    if role.None? then Null else Str(role.value)
  }

  /** The property key `data[role]` reads: the role itself, or "null". */
  function RoleKey(role: Option<string>): string {
    ToJsString(RoleValue(role))
  }

  // ---------------------------------------------------------------- mapData

  /** What renaming uses: the direction's vocabulary, the anchors and the use-only flag. */
  datatype Mapping = Mapping(fields: Dict<string>, anchors: Dict<string>, useOnly: bool)

  /** `client_fields` for the "client" direction, `server_fields` for any other. */
  function Vocabulary(scope: Scope, fieldsType: string): Dict<string> {
    if fieldsType == "client" then scope.clientFields else scope.serverFields
  }

  function MappingFor(scope: Scope, fieldsType: string): Mapping {
    Mapping(Vocabulary(scope, fieldsType), scope.fieldsAnchors, scope.useOnlyMappedFields)
  }

  /** A key the vocabulary lists, or whose anchor lookup is truthy. */
  predicate IsMapped(m: Mapping, key: string) {
    HasKey(m.fields, key) || Truthy(RoleValue(FieldByAnchor(m.anchors, key)))
  }

  /**
    The key `_map` stores the value found under `key` at, None when it drops
    it: `fields[key] || fieldByAnchor` for a mapped key, the key itself for an
    unmapped one unless only mapped fields are wanted.
   */
  function Target(m: Mapping, key: string): (t: Option<string>)
    ensures t.None? <==> m.useOnly && !IsMapped(m, key)
    ensures !IsMapped(m, key) && t.Some? ==> t.value == key
    ensures Get(m.fields, key).Some? && Get(m.fields, key).value != "" ==> t == Get(m.fields, key)
  {
    var role := FieldByAnchor(m.anchors, key);
    if IsMapped(m, key) then
      var name := Get(m.fields, key).GetOr("");
      Some(if name != "" then name else RoleKey(role))
    else if !m.useOnly then Some(key)
    else None
  }

  /** The entries `_map` collects from the entries `ps`, in visiting order. */
  function Renamed(ps: Dict<Value>, m: Mapping): Dict<Value> {
    if ps == [] then []
    else
      var acc := Renamed(ps[..|ps| - 1], m);
      var entry := ps[|ps| - 1];
      match Target(m, entry.0)
      case None => acc
      case Some(t) => Put(acc, t, entry.1)
  }

  /**
    `mapData(v)`: every object-typed entry mapped first, then the keys
    renamed into a fresh array or object of the same kind.
   */
  function MapValue(v: Value, m: Mapping): (r: Value)
    ensures r.Obj? && (r.isArray <==> v.Obj? && v.isArray)
    decreases v, 1
  {
    Obj(v.Obj? && v.isArray, Renamed(ForIn(WithMappedChildren(v, m)), m))
  }

  /**
    The input of `mapData` after its first loop, which writes the mapped
    form of each object-typed entry (null included) back into it.
   */
  function WithMappedChildren(v: Value, m: Mapping): (r: Value)
    decreases v, 0
  {
    match v
    case Obj(isArray, ps) =>
      Obj(isArray, seq(|ps|, i requires 0 <= i < |ps| =>
        assert ps[i] in ps;
        (ps[i].0, MappedChild(ps[i].1, m))))
    case _ => v
  }

  /** What the first loop of `mapData` writes back for one entry's value: its mapped form when object-typed. */
  function MappedChild(c: Value, m: Mapping): Value
    decreases c, 2
  {
    if IsObjectType(c) then MapValue(c, m) else c
  }

  /**
    `mapData(data, fieldsType)`. `input` is `data` after the method has
    written the mapped children into it; `mapped` is the returned value.
   */
  method MapData(scope: Scope, data: Value, fieldsType: string) returns (input: Value, mapped: Value)
    ensures input == WithMappedChildren(data, MappingFor(scope, fieldsType))
    ensures mapped == MapValue(data, MappingFor(scope, fieldsType))
    decreases data
  {
    ghost var m := MappingFor(scope, fieldsType);
    input := data;
    if data.Obj? {
      var ps := data.props;
      for i := 0 to |ps|
        invariant |ps| == |data.props|
        invariant forall j :: 0 <= j < i ==>
          ps[j] == (data.props[j].0, MappedChild(data.props[j].1, m))
        invariant forall j :: i <= j < |ps| ==> ps[j] == data.props[j]
      {
        var currentData := ps[i].1;
        assert data.props[i] in data.props;
        if IsObjectType(currentData) {
          var _, child := MapData(scope, currentData, fieldsType);
          ps := ps[i := (ps[i].0, child)];
        }
      }
      input := Obj(data.isArray, ps);
    }
    var fields := if fieldsType == "client" then scope.clientFields else scope.serverFields;
    mapped := MapFields(scope, input, fields);
  }

  /** The inner `_map(data, fields)`: one pass over the entries, renaming or dropping each. */
  method MapFields(scope: Scope, data: Value, fields: Dict<string>) returns (mappedData: Value)
    ensures mappedData ==
      Obj(data.Obj? && data.isArray, Renamed(ForIn(data), Mapping(fields, scope.fieldsAnchors, scope.useOnlyMappedFields)))
  {
    ghost var m := Mapping(fields, scope.fieldsAnchors, scope.useOnlyMappedFields);
    var ps := ForIn(data);
    var acc: Dict<Value> := [];
    for i := 0 to |ps|
      invariant acc == Renamed(ps[..i], m)
    {
      var key := ps[i].0;
      var fieldByAnchor := GetFieldByAnchor(scope, key);
      var target: Option<string> := None;
      if HasKey(fields, key) || Truthy(RoleValue(fieldByAnchor)) {
        var name := Get(fields, key).GetOr("");
        target := Some(if name != "" then name else RoleKey(fieldByAnchor));
      } else if !scope.useOnlyMappedFields {
        target := Some(key);
      }
      assert target == Target(m, key);
      RenamedSnoc(ps, i, m);
      if target.Some? {
        acc := Put(acc, target.value, ps[i].1);
      }
    }
    assert ps[..|ps|] == ps;
    mappedData := Obj(data.Obj? && data.isArray, acc);
  }

  /** One more visited entry: renamed onto the collected entries, or dropped. */
  lemma RenamedSnoc(ps: Dict<Value>, i: nat, m: Mapping)
    requires i < |ps|
    ensures Renamed(ps[..i + 1], m) ==
      match Target(m, ps[i].0)
      case None => Renamed(ps[..i], m)
      case Some(t) => Put(Renamed(ps[..i], m), t, ps[i].1)
  {
    assert ps[..i + 1][..i] == ps[..i];
  }

  /** With only mapped fields wanted, entries whose keys are all unmapped leave nothing. */
  lemma {:induction false} UnmappedDropped(ps: Dict<Value>, m: Mapping)
    requires m.useOnly
    requires forall i :: 0 <= i < |ps| ==> !IsMapped(m, ps[i].0)
    ensures Renamed(ps, m) == []
  {
    if ps != [] {
      var n := |ps| - 1;
      assert forall i :: 0 <= i < n ==> ps[..n][i] == ps[i];
      UnmappedDropped(ps[..n], m);
    }
  }

  /** Mapping only mapped fields of an array none of whose keys is mapped gives `[]`. */
  lemma UnmappedArrayEmpty(ps: Dict<Value>, m: Mapping)
    requires m.useOnly
    requires forall i :: 0 <= i < |ps| ==> !IsMapped(m, ps[i].0)
    ensures MapValue(Obj(true, ps), m) == EmptyArray
  {
    var children := ForIn(WithMappedChildren(Obj(true, ps), m));
    assert forall i :: 0 <= i < |ps| ==> children[i].0 == ps[i].0;
    UnmappedDropped(children, m);
  }

  /** The entries `ps` under the keys `ts`, in order. */
  function Relabelled(ps: Dict<Value>, ts: seq<string>): Dict<Value>
    requires |ts| == |ps|
  {
    seq(|ps|, i requires 0 <= i < |ps| => (ts[i], ps[i].1))
  }

  /**
    When every entry is kept, the `i`-th under key `ts[i]`, and no two land on
    the same key, renaming keeps every entry, in order, under its target key.
   */
  lemma {:induction false} RenamedDistinct(ps: Dict<Value>, m: Mapping, ts: seq<string>)
    requires |ts| == |ps|
    requires forall i :: 0 <= i < |ps| ==> Target(m, ps[i].0) == Some(ts[i])
    requires forall i, j :: 0 <= i < j < |ts| ==> ts[i] != ts[j]
    ensures Renamed(ps, m) == Relabelled(ps, ts)
  {
    if ps != [] {
      var n := |ps| - 1;
      assert forall i :: 0 <= i < n ==> ps[..n][i] == ps[i] && ts[..n][i] == ts[i];
      RenamedDistinct(ps[..n], m, ts[..n]);
      RenamedExtend(ps, m, ts);
    }
  }

  /** One more entry kept under a new key is appended to the renamed entries. */
  lemma RenamedExtend(ps: Dict<Value>, m: Mapping, ts: seq<string>)
    requires |ts| == |ps| && ps != []
    requires Renamed(ps[..|ps| - 1], m) == Relabelled(ps[..|ps| - 1], ts[..|ts| - 1])
    requires Target(m, ps[|ps| - 1].0) == Some(ts[|ts| - 1])
    requires forall i :: 0 <= i < |ts| - 1 ==> ts[i] != ts[|ts| - 1]
    ensures Renamed(ps, m) == Relabelled(ps, ts)
  {
    var n := |ps| - 1;
    RelabelledSnoc(ps, ts);
    FreshKey(Relabelled(ps[..n], ts[..n]), ts[n]);
  }

  /** Relabelling one more entry appends it under its new key. */
  lemma RelabelledSnoc(ps: Dict<Value>, ts: seq<string>)
    requires |ts| == |ps| && ps != []
    ensures Relabelled(ps, ts) ==
      Relabelled(ps[..|ps| - 1], ts[..|ts| - 1]) + [(ts[|ts| - 1], ps[|ps| - 1].1)]
    ensures forall j :: 0 <= j < |ps| - 1 ==> Relabelled(ps[..|ps| - 1], ts[..|ts| - 1])[j].0 == ts[j]
  {
    var n := |ps| - 1;
    var whole := Relabelled(ps, ts);
    var grown := Relabelled(ps[..n], ts[..n]) + [(ts[n], ps[n].1)];
    assert forall i :: 0 <= i < |whole| ==> whole[i] == grown[i];
  }

  /** A key no entry carries is not a key. */
  lemma FreshKey(acc: Dict<Value>, t: string)
    requires forall j :: 0 <= j < |acc| ==> acc[j].0 != t
    ensures !HasKey(acc, t)
  {
    assert forall j :: 0 <= j < |acc| ==> Keys(acc)[j] != t;
  }

  /** A flat record: an object whose entries hold no object-typed value. */
  predicate FlatRecord(ps: Dict<Value>) {
    NoDupKeys(ps) && forall i :: 0 <= i < |ps| ==> !IsObjectType(ps[i].1)
  }

  /** A vocabulary that can be inverted: keys and values non-empty and each used once. */
  predicate Invertible(v: Dict<string>) {
    NoDupKeys(v) && Injective(v) && forall j :: 0 <= j < |v| ==> v[j].0 != "" && v[j].1 != ""
  }

  /** Mapping a flat record leaves it as it is before renaming. */
  lemma FlatChildren(ps: Dict<Value>, m: Mapping, isArray: bool)
    requires FlatRecord(ps)
    ensures WithMappedChildren(Obj(isArray, ps), m) == Obj(isArray, ps)
  {
  }

  /**
    `k` is anchored to itself: the first anchor whose value is `k` is the
    role `k`, as `{id: "id", order: "order"}` makes it for both its roles.
   */
  predicate SelfAnchored(anchors: Dict<string>, k: string) {
    k != "" && FieldByAnchor(anchors, k) == Some(k)
  }

  /** `k` is none of the vocabulary's values. */
  predicate NotAValue(v: Dict<string>, k: string) {
    forall j :: 0 <= j < |v| ==> v[j].1 != k
  }

  /**
    Every key of `ps` is a vocabulary key, or is anchored to itself and is
    none of the vocabulary's values.
   */
  predicate Covered(ps: Dict<Value>, v: Dict<string>, anchors: Dict<string>) {
    forall i :: 0 <= i < |ps| ==> HasKey(v, ps[i].0) || (SelfAnchored(anchors, ps[i].0) && NotAValue(v, ps[i].0))
  }

  /** The key each entry of `ps` is translated to: its vocabulary value, or the key itself. */
  function Forward(ps: Dict<Value>, v: Dict<string>): seq<string> {
    seq(|ps|, i requires 0 <= i < |ps| => Get(v, ps[i].0).GetOr(ps[i].0))
  }

  /** The record `ps` with each key translated. */
  function Translated(ps: Dict<Value>, v: Dict<string>): Dict<Value> {
    Relabelled(ps, Forward(ps, v))
  }

  /** A vocabulary key reads back a non-empty value held at some position. */
  lemma VocabularyEntry(v: Dict<string>, k: string) returns (j: nat)
    requires Invertible(v) && HasKey(v, k)
    ensures j < |v| && v[j].0 == k && Get(v, k) == Some(v[j].1) && v[j].1 != ""
  {
    j :| 0 <= j < |v| && v[j] == (k, Get(v, k).value);
  }

  /** A self-anchored key that is no vocabulary key is stored under itself. */
  lemma AnchoredTarget(m: Mapping, k: string)
    requires SelfAnchored(m.anchors, k) && Get(m.fields, k).None?
    ensures Target(m, k) == Some(k)
  {
    assert Truthy(RoleValue(FieldByAnchor(m.anchors, k)));
  }

  /** Each covered key is renamed to its translation. */
  lemma ForwardTarget(ps: Dict<Value>, v: Dict<string>, anchors: Dict<string>, useOnly: bool, i: nat)
    requires Invertible(v) && Covered(ps, v, anchors) && i < |ps|
    ensures Target(Mapping(v, anchors, useOnly), ps[i].0) == Some(Forward(ps, v)[i])
  {
    var k := ps[i].0;
    if HasKey(v, k) {
      var j := VocabularyEntry(v, k);
    } else {
      AnchoredTarget(Mapping(v, anchors, useOnly), k);
    }
  }

  /** No two keys of a record are translated alike. */
  lemma ForwardDistinct(ps: Dict<Value>, v: Dict<string>, anchors: Dict<string>)
    requires NoDupKeys(ps) && Invertible(v) && Covered(ps, v, anchors)
    ensures forall i, j :: 0 <= i < j < |ps| ==> Forward(ps, v)[i] != Forward(ps, v)[j]
  {
    var ts := Forward(ps, v);
    forall i, j | 0 <= i < j < |ps| ensures ts[i] != ts[j] {
      if HasKey(v, ps[i].0) && HasKey(v, ps[j].0) {
        var a := VocabularyEntry(v, ps[i].0);
        var b := VocabularyEntry(v, ps[j].0);
        assert a != b;
      } else if HasKey(v, ps[i].0) {
        var a := VocabularyEntry(v, ps[i].0);
      } else if HasKey(v, ps[j].0) {
        var b := VocabularyEntry(v, ps[j].0);
      }
    }
  }

  /**
    Mapping a flat record with an invertible vocabulary translates every
    key: a vocabulary key to its value, a self-anchored key to itself.
   */
  lemma VocabularyPass(ps: Dict<Value>, v: Dict<string>, anchors: Dict<string>, useOnly: bool)
    requires FlatRecord(ps) && Invertible(v) && Covered(ps, v, anchors)
    ensures FlatRecord(Translated(ps, v))
    ensures MapValue(Obj(false, ps), Mapping(v, anchors, useOnly)) == Obj(false, Translated(ps, v))
  {
    var m := Mapping(v, anchors, useOnly);
    var ts := Forward(ps, v);
    forall i | 0 <= i < |ps| ensures Target(m, ps[i].0) == Some(ts[i]) {
      ForwardTarget(ps, v, anchors, useOnly, i);
    }
    ForwardDistinct(ps, v, anchors);
    FlatChildren(ps, m, false);
    RenamedDistinct(ps, m, ts);
  }

  /**
    Mapping a translated record with the vocabulary written in reverse over
    `base` gives back the original keys, when no self-anchored key is a key
    of `base`.
   */
  lemma InversePass(ps: Dict<Value>, v: Dict<string>, base: Dict<string>, anchors: Dict<string>, useOnly: bool)
    requires FlatRecord(ps) && Invertible(v) && Covered(ps, v, anchors)
    requires forall i :: 0 <= i < |ps| && !HasKey(v, ps[i].0) ==> !HasKey(base, ps[i].0)
    ensures MapValue(Obj(false, Translated(ps, v)), Mapping(Invert(base, v), anchors, useOnly)) == Obj(false, ps)
  {
    var m := Mapping(Invert(base, v), anchors, useOnly);
    var qs := Translated(ps, v);
    var ks := seq(|ps|, i requires 0 <= i < |ps| => ps[i].0);
    ForwardDistinct(ps, v, anchors);
    forall i | 0 <= i < |qs| ensures Target(m, qs[i].0) == Some(ks[i]) {
      var k := ps[i].0;
      if HasKey(v, k) {
        var j := VocabularyEntry(v, k);
        InvertGet(base, v, j);
      } else {
        InvertOther(base, v, k);
        AnchoredTarget(m, k);
      }
    }
    FlatChildren(qs, m, false);
    RenamedDistinct(qs, m, ks);
    assert Relabelled(qs, ks) == ps;
  }

  /**
    Mapping a flat record server-ward with an invertible vocabulary `v`, then
    client-ward with the vocabulary `map(v)` builds (`v` written in reverse
    over the earlier client vocabulary `base`), gives back the record, when
    each key is a key of `v`, or is anchored to itself, is no value of `v`
    and has no entry in `base`.
   */
  lemma MapRoundTrip(ps: Dict<Value>, v: Dict<string>, base: Dict<string>, anchors: Dict<string>, useOnly: bool)
    requires FlatRecord(ps) && Invertible(v) && Covered(ps, v, anchors)
    requires forall i :: 0 <= i < |ps| && !HasKey(v, ps[i].0) ==> !HasKey(base, ps[i].0)
    ensures MapValue(MapValue(Obj(false, ps), Mapping(v, anchors, useOnly)), Mapping(Invert(base, v), anchors, useOnly))
      == Obj(false, ps)
  {
    VocabularyPass(ps, v, anchors, useOnly);
    InversePass(ps, v, base, anchors, useOnly);
  }

  /**
    `{id: 5, title: "A"}` with the vocabulary `{title: "t_title"}` and the
    anchors `{id: "id"}` goes to the server as `{id: 5, t_title: "A"}` and
    comes back as it was.
   */
  lemma MapRoundTripExample(useOnly: bool)
    ensures var ps := [("id", Num(5)), ("title", Str("A"))];
      var v := [("title", "t_title")];
      MapValue(MapValue(Obj(false, ps), Mapping(v, [("id", "id")], useOnly)), Mapping(Invert([], v), [("id", "id")], useOnly))
        == Obj(false, ps)
  {
    var ps := [("id", Num(5)), ("title", Str("A"))];
    var v := [("title", "t_title")];
    var anchors := [("id", "id")];
    assert "id" != "title" && "id" != "t_title" by { assert "id"[0] != "title"[0] && "id"[0] != "t_title"[0]; }
    FirstAnchor(anchors, "id", 0);
    GetCons(("title", "t_title"), [], "id");
    GetCons(("title", "t_title"), [], "title");
    assert NoDupKeys(ps) by { assert Keys(ps) == ["id", "title"]; }
    assert Covered(ps, v, anchors);
    MapRoundTrip(ps, v, [], anchors, useOnly);
  }

  /**
    The adapter builds its data handler from the controller's provider, which
    has none of the settings properties: the scope is the default one, and
    `mapData` gives a flat record back unchanged in either direction.
   */
  lemma AdapterScopeMapsNothing(ps: Dict<Value>, fieldsType: string)
    requires FlatRecord(ps)
    ensures NewScope(Some(Settings(Undefined, Undefined, None, None, None))) == Scope(Null, false, [], [], [])
    ensures MapValue(Obj(false, ps), MappingFor(NewScope(Some(Settings(Undefined, Undefined, None, None, None))), fieldsType))
      == Obj(false, ps)
  {
    var m := MappingFor(Scope(Null, false, [], [], []), fieldsType);
    var ks := seq(|ps|, i requires 0 <= i < |ps| => ps[i].0);
    forall i | 0 <= i < |ps| ensures Target(m, ps[i].0) == Some(ks[i]) {
      assert !IsMapped(m, ps[i].0);
    }
    FlatChildren(ps, m, false);
    RenamedDistinct(ps, m, ks);
    assert Relabelled(ps, ks) == ps;
  }

  // ---------------------------------------------------------------- field readers

  /** `getFieldData(data, field)`: `data[field]` when truthy, else the entry under the anchor role. */
  function GetFieldData(anchors: Dict<string>, data: Value, field: string): (r: Option<Value>)
    ensures r.None? <==> IsNullish(data)
    ensures r.Some? && Truthy(Prop(data, field).value) ==> r == Prop(data, field)
    ensures r.Some? && !Truthy(Prop(data, field).value) ==> r == Prop(data, RoleKey(FieldByAnchor(anchors, field)))
  {
    match Prop(data, field)
    case None => None
    case Some(fieldData) =>
      if Truthy(fieldData) then Some(fieldData) else Prop(data, RoleKey(FieldByAnchor(anchors, field)))
  }

  /** The key `deleteFieldData` removes: `field` when it is an own key, else the anchor role. */
  function DeletedKey(anchors: Dict<string>, ps: Dict<Value>, field: string): string {
    if HasKey(ps, field) then field else RoleKey(FieldByAnchor(anchors, field))
  }

  /**
    `deleteFieldData(data, field)`: None where `hasOwnProperty` on null or
    undefined throws; a primitive comes back as it was.
   */
  function DeleteFieldData(anchors: Dict<string>, data: Value, field: string): (r: Option<Value>)
    ensures r.None? <==> IsNullish(data)
    ensures !data.Obj? && r.Some? ==> r.value == data
    ensures data.Obj? ==> r.Some? && r.value.Obj? && r.value.isArray == data.isArray
    ensures data.Obj? ==>
      var gone := DeletedKey(anchors, data.props, field);
      && !HasKey(r.value.props, gone)
      && forall k {:trigger Get(r.value.props, k)} :: k != gone ==> Get(r.value.props, k) == Get(data.props, k)
  {
    if IsNullish(data) then None
    else if !data.Obj? then Some(data)
    else Some(Obj(data.isArray, Remove(data.props, DeletedKey(anchors, data.props, field))))
  }

  /**
    Reading a field after deleting it as an own key falls back to the value
    under its anchor role, as long as the role names another key.
   */
  lemma GetAfterDelete(anchors: Dict<string>, isArray: bool, ps: Dict<Value>, field: string)
    requires HasKey(ps, field)
    requires RoleKey(FieldByAnchor(anchors, field)) != field
    ensures GetFieldData(anchors, DeleteFieldData(anchors, Obj(isArray, ps), field).value, field)
      == Prop(Obj(isArray, ps), RoleKey(FieldByAnchor(anchors, field)))
  {
    var d := DeleteFieldData(anchors, Obj(isArray, ps), field).value;
    assert Get(d.props, field).None?;
    var role := RoleKey(FieldByAnchor(anchors, field));
    assert Get(d.props, role) == Get(ps, role);
  }

  // ---------------------------------------------------------------- envelopes

  /**
    How a call ended: a fulfilled or rejected promise, or an exception thrown
    before any promise was made. A rejection is operational when its reason
    is an operational error (an `OperationalError`, or a reason marked
    `isOperational`, as promisified node callbacks give); the promise
    library's `.error` handler catches those and no other.
   */
  datatype Settled<T> = Fulfilled(value: T) | Rejected(error: Value, operational: bool) | Threw(error: Value)

  /** The error reading a property of null or undefined raises. */
  const TypeError: Value := ErrorValue("TypeError", "")

  /** The four write operations. */
  datatype Change = Insert | Update | Move | Delete

  function Status(c: Change): string {
    match c
    case Insert => "inserted"
    case Update => "updated"
    case Move => "moved"
    case Delete => "deleted"
  }

  /** `{status, source_id, target_id}`, or `{status: "read", data}`. */
  datatype Envelope = Changed(status: string, sourceId: Value, targetId: Value) | ReadData(data: seq<Node>)

  /**
    The envelope `insertData`, `updateData`, `moveData` or `deleteData` settles
    with, given how the storage call settled. Insert and update take the
    target id from the storage reply when it is truthy; a null or undefined
    reply makes reading its id throw inside the `.then`, which rejects with a
    TypeError that is not operational.
   */
  function ChangeEnvelope(c: Change, request: Value, stored: Settled<Value>): (r: Settled<Envelope>)
    ensures IsNullish(request) ==> r == Threw(TypeError)
    ensures !IsNullish(request) && stored.Rejected? ==> r == Rejected(stored.error, stored.operational)
    ensures !IsNullish(request) && stored.Threw? ==> r == Threw(stored.error)
    ensures r.Fulfilled? ==> stored.Fulfilled? && !IsNullish(request)
    ensures r.Fulfilled? ==>
      var id := Prop(request, "id").value;
      && r.value.Changed? && r.value.status == Status(c) && r.value.sourceId == id
      && (c.Move? || c.Delete? ==> r.value.targetId == id)
      && (c.Insert? || c.Update? ==>
          && !IsNullish(stored.value)
          && var replyId := Prop(stored.value, "id").value;
             r.value.targetId == if Truthy(replyId) then replyId else id)
    ensures !IsNullish(request) && stored.Fulfilled? ==>
      (r.Fulfilled? <==> c.Move? || c.Delete? || !IsNullish(stored.value))
    ensures !IsNullish(request) && stored.Fulfilled? && !r.Fulfilled? ==> r == Rejected(TypeError, false)
  {
    if IsNullish(request) then Threw(TypeError)
    else
      var id := Prop(request, "id").value;
      match stored
      case Rejected(e, operational) => Rejected(e, operational)
      case Threw(e) => Threw(e)
      case Fulfilled(reply) =>
        if c.Move? || c.Delete? then Fulfilled(Changed(Status(c), id, id))
        else if IsNullish(reply) then Rejected(TypeError, false)
        else
          var replyId := Prop(reply, "id").value;
          Fulfilled(Changed(Status(c), id, if Truthy(replyId) then replyId else id))
  }

  // ---------------------------------------------------------------- forest

  /**
    The `data` record `e` holds once `_dataToTree` has visited the keys `ks`,
    starting from `initial`: the list is created on the first child and
    extended by every later one.
   */
  function Attached(ks: seq<int>, hash: map<int, Node>, e: Node, initial: Option<seq<Node>>): Option<seq<Node>>
    requires KeysIndexed(ks, hash) && KeyedById(hash) && e.id in hash
  {
    if hash[e.id] == e then AppendChildren(initial, ChildrenOf(ks, hash, e.id)) else initial
  }

  /** The records pushed onto the root list: those of the root keys, in visiting order. */
  function RootRecords(keys: seq<int>, hash: map<int, Node>): seq<Node>
    requires KeysIndexed(keys, hash)
  {
    if keys == [] then []
    else
      var last := keys[|keys| - 1];
      var init := keys[..|keys| - 1];
      assert last in keys;
      assert forall k :: k in init ==> k in keys;
      RootRecords(init, hash) + (if hash[last].parent !in hash then [hash[last]] else [])
  }

  /**
    The root list holds every indexed record whose parent id is not an index
    key, and nothing else.
   */
  lemma {:induction false} RootRecordsSpec(keys: seq<int>, hash: map<int, Node>)
    requires KeysIndexed(keys, hash) && KeyedById(hash)
    ensures forall k :: k in keys && hash[k].parent !in hash ==> hash[k] in RootRecords(keys, hash)
    ensures forall x :: x in RootRecords(keys, hash) ==> x.id in keys && hash[x.id] == x && x.parent !in hash
  {
    if keys != [] {
      var init := keys[..|keys| - 1];
      assert forall k :: k in keys ==> k in init || k == keys[|keys| - 1];
      assert forall k :: k in init ==> k in keys;
      RootRecordsSpec(init, hash);
    }
  }

  /**
    Every indexed record ends up either on the root list or in the children
    of the record its parent id names.
   */
  lemma ForestCovers(keys: seq<int>, hash: map<int, Node>, k: int)
    requires KeysIndexed(keys, hash) && KeyedById(hash) && k in keys
    ensures hash[k] in RootRecords(keys, hash) || hash[k] in ChildrenOf(keys, hash, hash[k].parent)
    ensures hash[k] in RootRecords(keys, hash) <==> hash[k].parent !in hash
  {
    RootRecordsSpec(keys, hash);
    ChildrenOfComplete(keys, hash, hash[k].parent);
  }

  /** Every record's `data` is what the loop gives it after the first `i` keys. */
  ghost predicate AttachedUpTo(data: seq<Node>, keys: seq<int>, hash: map<int, Node>, i: nat,
                               before: map<Node, Option<seq<Node>>>)
    reads set e | e in data
    requires KeysIndexed(keys, hash) && KeyedById(hash) && i <= |keys|
    requires forall e :: e in data ==> e.id in hash && e in before
  {
    PrefixIndexed(keys, hash, i);
    forall e :: e in data ==> e.data == Attached(keys[..i], hash, e, before[e])
  }

  /**
    `_dataToTree(data)` of the data handler: the records are indexed by id
    and linked in place (no copy is made); a record whose parent id is an
    index key is pushed onto its parent's `data`, any other record onto the
    returned root list. The parent id is the value under the configured
    parent field.
   */
  method DataToForest(data: seq<Node>) returns (rootElements: seq<Node>, keys: seq<int>, hash: map<int, Node>)
    modifies (set e | e in data)`data
    ensures keys == KeyOrder(data) && hash == Index(data)
    ensures KeyedById(hash) && KeysIndexed(keys, hash)
    ensures forall e :: e in data ==> e.id in hash
    ensures rootElements == RootRecords(keys, hash)
    ensures forall e :: e in data ==> e.data == Attached(keys, hash, e, old(e.data))
    ensures forall e :: e in data ==> e.hasChildren == old(e.hasChildren)
  {
    keys, hash := ArrayToHash(data);
    IndexKeys(data);
    KeyOrderSpec(data);
    ghost var before := map e | e in data :: e.data;
    rootElements := [];
    assert keys[..0] == [];
    for i := 0 to |keys|
      invariant rootElements == RootRecords(keys[..i], hash)
      invariant AttachedUpTo(data, keys, hash, i, before)
    {
      rootElements := AttachKey(data, keys, hash, i, before, rootElements);
    }
    assert keys[..|keys|] == keys;
  }

  /** One pass of the loop: the record at key position `i` joins the roots or its parent. */
  method AttachKey(data: seq<Node>, keys: seq<int>, hash: map<int, Node>, i: nat,
                   ghost before: map<Node, Option<seq<Node>>>, rootElements: seq<Node>)
    returns (rootElements': seq<Node>)
    requires KeyedById(hash) && KeysIndexed(keys, hash) && i < |keys|
    requires forall k :: k in hash ==> hash[k] in data
    requires forall e :: e in data ==> e.id in hash && e in before
    requires rootElements == RootRecords(keys[..i], hash)
    requires AttachedUpTo(data, keys, hash, i, before)
    modifies (set e | e in data)`data
    ensures rootElements' == RootRecords(keys[..i + 1], hash)
    ensures AttachedUpTo(data, keys, hash, i + 1, before)
  {
    RootsStep(keys, hash, i);
    var node := hash[keys[i]];
    var parentId := node.parent;
    if parentId !in hash {
      rootElements' := rootElements + [node];
      forall e | e in data
        ensures Attached(keys[..i + 1], hash, e, before[e]) == Attached(keys[..i], hash, e, before[e])
      {
        AttachStep(keys, hash, i, e, before[e]);
      }
    } else {
      rootElements' := rootElements;
      AttachChild(data, keys, hash, i, before);
    }
  }

  /** One pass of the loop for a record with an indexed parent: `parent.data.push(data)`. */
  method AttachChild(data: seq<Node>, keys: seq<int>, hash: map<int, Node>, i: nat,
                     ghost before: map<Node, Option<seq<Node>>>)
    requires KeyedById(hash) && KeysIndexed(keys, hash) && i < |keys|
    requires forall k :: k in hash ==> hash[k] in data
    requires forall e :: e in data ==> e.id in hash && e in before
    requires keys[i] in hash && hash[keys[i]].parent in hash
    requires AttachedUpTo(data, keys, hash, i, before)
    modifies {hash[hash[keys[i]].parent]}`data
    ensures AttachedUpTo(data, keys, hash, i + 1, before)
  {
    var node := hash[keys[i]];
    var parent := hash[node.parent];
    parent.data := Some(parent.data.GetOr([]) + [node]);
    forall e | e in data
      ensures e.data == Attached(keys[..i + 1], hash, e, before[e])
    {
      AttachStep(keys, hash, i, e, before[e]);
    }
  }

  /** The `data` of record `e` after the loop visits the key at position `i`. */
  lemma AttachStep(keys: seq<int>, hash: map<int, Node>, i: nat, e: Node, initial: Option<seq<Node>>)
    requires KeyedById(hash) && KeysIndexed(keys, hash) && i < |keys| && e.id in hash
    ensures keys[i] in hash && KeysIndexed(keys[..i + 1], hash) && KeysIndexed(keys[..i], hash)
    ensures Attached(keys[..i + 1], hash, e, initial) ==
      if hash[keys[i]].parent == e.id && hash[e.id] == e
      then Some(Attached(keys[..i], hash, e, initial).GetOr([]) + [hash[keys[i]]])
      else Attached(keys[..i], hash, e, initial)
  {
    ChildrenStep(keys, hash, i, e.id);
    var before := ChildrenOf(keys[..i], hash, e.id);
    if hash[e.id] == e {
      if hash[keys[i]].parent == e.id {
        AppendOne(initial, before, hash[keys[i]]);
      } else {
        assert before + [] == before;
      }
    }
  }

  /** One more visited key extends the root list when its record's parent id is not indexed. */
  lemma RootsStep(keys: seq<int>, hash: map<int, Node>, i: nat)
    requires KeysIndexed(keys, hash) && i < |keys|
    ensures keys[i] in hash && KeysIndexed(keys[..i + 1], hash)
    ensures RootRecords(keys[..i + 1], hash) ==
      RootRecords(keys[..i], hash) + (if hash[keys[i]].parent !in hash then [hash[keys[i]]] else [])
  {
    PrefixIndexed(keys, hash, i + 1);
    PrefixIndexed(keys, hash, i);
    var ks := keys[..i + 1];
    assert ks[..|ks| - 1] == keys[..i];
    assert ks[|ks| - 1] == keys[i];
  }

  /**
    `getData`'s reply: `{status: "read", data}`, the records turned into a
    forest first when the handler's data type is "tree".
   */
  method GetData(scope: Scope, stored: Settled<seq<Node>>) returns (r: Settled<Envelope>)
    modifies if stored.Fulfilled? then set e | e in stored.value else {}
    ensures stored.Rejected? ==> r == Rejected(stored.error, stored.operational)
    ensures stored.Threw? ==> r == Threw(stored.error)
    ensures stored.Fulfilled? && !LooseEqualsWord(scope.dataType, "tree") ==>
      r == Fulfilled(ReadData(stored.value))
      && forall e :: e in stored.value ==> e.data == old(e.data)
    ensures stored.Fulfilled? && LooseEqualsWord(scope.dataType, "tree") ==>
      var records := stored.value;
      && KeysIndexed(KeyOrder(records), Index(records)) && KeyedById(Index(records))
      && (forall e :: e in records ==> e.id in Index(records))
      && r == Fulfilled(ReadData(RootRecords(KeyOrder(records), Index(records))))
      && forall e :: e in records ==> e.data == Attached(KeyOrder(records), Index(records), e, old(e.data))
  {
    match stored
    case Rejected(e, operational) => r := Rejected(e, operational);
    case Threw(e) => r := Threw(e);
    case Fulfilled(records) =>
      if LooseEqualsWord(scope.dataType, "tree") {
        var roots, _, _ := DataToForest(records);
        r := Fulfilled(ReadData(roots));
      } else {
        r := Fulfilled(ReadData(records));
      }
  }
}
