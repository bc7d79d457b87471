/**
  The controller of index.js and the provider of providers/ControllerProvider.js.

  A controller holds its model and request, the data type and loading type,
  the server and client vocabularies, the anchor table and the
  use-only-mapped-fields flag. The vocabularies and the anchor table are
  objects a controller shares with every controller copied from it, so they
  are heap objects (`Fields`) here, and the provider is a view of one
  controller that reads and writes its fields.
 */
module Controller {
  import opened Wrappers
  import opened OrderedMap
  import opened JsValue

  /** A plain object mapping names to names: a vocabulary or the anchor table. */
  class Fields {
    var entries: Dict<string>

    constructor (entries: Dict<string>)
      ensures this.entries == entries
    {
      this.entries := entries;
    }
  }

  /** The model a controller holds: a value given by its creator, or the controller it was copied from. */
  datatype ModelRef = Given(v: Value) | CopiedFrom(c: Controller)

  predicate ModelTruthy(m: ModelRef) {
    match m
    case Given(v) => Truthy(v)
    case CopiedFrom(_) => true
  }

  /**
    The value the role constants `ANCHOR_FIELD_PARENT_ID`,
    `ANCHOR_FIELD_TREE_SELECTION`, `ANCHOR_FIELD_NODE_HAS_CHILDREN`,
    `DATA_TYPE_TREE` and `LOADING_TYPE_DYNAMIC` have when read from a
    provider instance: they are defined on the provider's constructor, not
    on its instances.
   */
  const InstanceConstant: Value := Undefined

  /** The constants as the provider's constructor defines them. */
  const DATA_TYPE_DEFAULT: string := "default"
  const DATA_TYPE_TREE: string := "tree"
  const LOADING_TYPE_STATIC: string := "static"
  const LOADING_TYPE_DYNAMIC: string := "dynamic"
  const ANCHOR_FIELD_ID: string := "id"
  const ANCHOR_FIELD_PARENT_ID: string := "parent_id"
  const ANCHOR_FIELD_ORDER: string := "order"
  const ANCHOR_FIELD_NODE_HAS_CHILDREN: string := "$tree_node_has_childer"
  const ANCHOR_FIELD_TREE_SELECTION: string := "$tree_selection_field_id"

  /** The anchors every construction merges in. */
  const DefaultAnchors: Dict<string> := [("id", "id"), ("order", "order")]

  /** `for (field in anchors) target[field] = anchors[field]`, as a value. */
  function Merged(target: Dict<string>, anchors: Dict<string>): Dict<string> {
    if anchors == [] then target
    else Put(Merged(target, anchors[..|anchors| - 1]), anchors[|anchors| - 1].0, anchors[|anchors| - 1].1)
  }

  /**
    After merging, a role the anchors give reads the anchors' last value
    for it, and every other role reads what it read before.
   */
  lemma {:induction false} MergedGet(target: Dict<string>, anchors: Dict<string>, k: string)
    ensures Get(Merged(target, anchors), k) ==
      match GetLast(anchors, k) case Some(v) => Some(v) case None => Get(target, k)
  {
    if anchors != [] {
      var n := |anchors| - 1;
      MergedGet(target, anchors[..n], k);
      if anchors[n].0 != k {
        PutOther(Merged(target, anchors[..n]), anchors[n].0, anchors[n].1, k);
      }
    }
  }

  /** The loop of `map`: `target[fields[key]] = key` for every key, in order. */
  method WriteInverse(target: Fields, ps: Dict<string>)
    modifies target
    ensures target.entries == Invert(old(target.entries), ps)
  {
    for i := 0 to |ps|
      invariant target.entries == Invert(old(target.entries), ps[..i])
    {
      assert ps[..i + 1][..i] == ps[..i];
      target.entries := Put(target.entries, ps[i].1, ps[i].0);
    }
    assert ps[..|ps|] == ps;
  }

  /** `for (field in anchors) target[field] = anchors[field]`: the loop of `setFieldsAnchors`. */
  method MergeInto(target: Fields, anchors: Dict<string>)
    modifies target
    ensures target.entries == Merged(old(target.entries), anchors)
  {
    for i := 0 to |anchors|
      invariant target.entries == Merged(old(target.entries), anchors[..i])
    {
      assert anchors[..i + 1][..i] == anchors[..i];
      target.entries := Put(target.entries, anchors[i].0, anchors[i].1);
    }
    assert anchors[..|anchors|] == anchors;
  }

  class Controller {
    var model: ModelRef
    var request: Value
    var dataType: Value
    var loadingType: Value
    var serverFields: Fields
    var clientFields: Fields
    var anchors: Fields
    var useOnly: bool
    var provider: Provider?

    /** The provider is this controller's own, and its three tables are distinct objects. */
    predicate Valid()
      reads this, provider
    {
      && provider != null && provider.controller == this
      && serverFields != anchors && clientFields != anchors
    }

    /** `new Controller(model, request)` with a model that is not a controller. */
    constructor (model: Value, request: Value)
      ensures Valid() && fresh(provider) && fresh(serverFields) && fresh(clientFields) && fresh(anchors)
      ensures this.model == Given(model) && this.request == request
      ensures dataType == Str("") && loadingType == Str(LOADING_TYPE_STATIC)
      ensures serverFields.entries == [] && clientFields.entries == [] && !useOnly
      ensures anchors.entries == DefaultAnchors
    {
      this.model := Given(model);
      this.request := request;
      dataType := Str("");
      loadingType := Str(LOADING_TYPE_STATIC);
      serverFields := new Fields([]);
      clientFields := new Fields([]);
      anchors := new Fields([]);
      useOnly := false;
      new;
      provider := new Provider(this);
      var _ := provider.SetFieldsAnchors(DefaultAnchors);
    }

    /**
      `new Controller(base)`: the model, request and types are taken from
      `base` where truthy, and the very same vocabulary and anchor objects
      are shared; the default anchors are merged into the shared table.
     */
    constructor Copy(base: Controller)
      requires base.Valid()
      modifies base.anchors
      ensures Valid() && fresh(provider)
      ensures model == if ModelTruthy(base.model) then base.model else CopiedFrom(base)
      ensures request == if Truthy(base.request) then base.request else Undefined
      ensures dataType == if Truthy(base.dataType) then base.dataType else Str("")
      ensures loadingType == if Truthy(base.loadingType) then base.loadingType else Str(LOADING_TYPE_STATIC)
      ensures serverFields == base.serverFields && clientFields == base.clientFields && anchors == base.anchors
      ensures useOnly == base.useOnly
      ensures anchors.entries == Merged(old(base.anchors.entries), DefaultAnchors)
    {
      model := if ModelTruthy(base.model) then base.model else CopiedFrom(base);
      request := if Truthy(base.request) then base.request else Undefined;
      dataType := if Truthy(base.dataType) then base.dataType else Str("");
      loadingType := if Truthy(base.loadingType) then base.loadingType else Str(LOADING_TYPE_STATIC);
      serverFields := base.serverFields;
      clientFields := base.clientFields;
      anchors := base.anchors;
      useOnly := base.useOnly;
      new;
      provider := new Provider(this);
      ghost var copied := Snapshot();
      MergeDefaultAnchors();
      assert Snapshot() == copied;
    }

    /** The fields of this controller other than the anchor entries. */
    ghost function Snapshot(): (Provider?, ModelRef, Value, Value, Value, Fields, Fields, Fields, bool)
      reads this
    {
      (provider, model, request, dataType, loadingType, serverFields, clientFields, anchors, useOnly)
    }

    /** `this._provider.setFieldsAnchors(FIELDS_ANCHORS_DEFAULT)` */
    method MergeDefaultAnchors()
      requires provider != null && provider.controller == this
      modifies anchors
      ensures anchors.entries == Merged(old(anchors.entries), DefaultAnchors)
    {
      var _ := provider.SetFieldsAnchors(DefaultAnchors);
    }

    /**
      `map(fields, useOnlyMappedFields)`: a copy whose server vocabulary is
      `fields` itself and whose flag is `!!useOnlyMappedFields`; every entry
      of `fields` is written in reverse into the client vocabulary, which
      the copy shares with this controller.
     */
    method Map(fields: Fields, useOnlyMappedFields: Value) returns (newObj: Controller)
      requires Valid() && fields != clientFields && fields != anchors
      modifies anchors, clientFields
      ensures newObj.Valid() && fresh(newObj)
      ensures newObj.serverFields == fields && newObj.useOnly == Truthy(useOnlyMappedFields)
      ensures newObj.model == if ModelTruthy(model) then model else CopiedFrom(this)
      ensures newObj.request == if Truthy(request) then request else Undefined
      ensures newObj.dataType == if Truthy(dataType) then dataType else Str("")
      ensures newObj.loadingType == if Truthy(loadingType) then loadingType else Str(LOADING_TYPE_STATIC)
      ensures newObj.clientFields == clientFields && newObj.anchors == anchors
      ensures clientFields.entries == Invert(old(clientFields.entries), fields.entries)
      ensures anchors.entries == Merged(old(anchors.entries), DefaultAnchors)
      ensures fields.entries == old(fields.entries)
      ensures serverFields == old(serverFields) && useOnly == old(useOnly)
    {
      newObj := new Controller.Copy(this);
      newObj.UseFields(fields, useOnlyMappedFields);
    }

    /** The part of `map` after the copy: the new server vocabulary and flag, and the reversed entries. */
    method UseFields(fields: Fields, useOnlyMappedFields: Value)
      requires Valid() && fields != clientFields && fields != anchors
      modifies this, clientFields
      ensures Valid() && provider == old(provider)
      ensures serverFields == fields && useOnly == Truthy(useOnlyMappedFields)
      ensures model == old(model) && request == old(request)
      ensures dataType == old(dataType) && loadingType == old(loadingType)
      ensures clientFields == old(clientFields) && anchors == old(anchors)
      ensures clientFields.entries == Invert(old(clientFields.entries), fields.entries)
      ensures anchors.entries == old(anchors.entries) && fields.entries == old(fields.entries)
    {
      serverFields := fields;
      useOnly := Truthy(useOnlyMappedFields);
      WriteInverse(clientFields, fields.entries);
    }

    /**
      `tree(db)`: one anchor entry with value "parent" is merged in, under
      the key the instance constant reads as, and the data type is set to
      that constant.
     */
    method Tree()
      requires Valid()
      modifies this, anchors
      ensures Valid() && provider == old(provider) && anchors == old(anchors)
      ensures anchors.entries == Put(old(anchors.entries), ToJsString(InstanceConstant), "parent")
      ensures dataType == InstanceConstant
      ensures loadingType == old(loadingType) && serverFields == old(serverFields) && clientFields == old(clientFields)
      ensures model == old(model) && request == old(request) && useOnly == old(useOnly)
    {
      var fieldsAnchors := Put([], ToJsString(InstanceConstant), "parent");
      var _ := provider.SetFieldsAnchors(fieldsAnchors);
      var _ := provider.SetDataType(InstanceConstant);
    }

    /**
      `treeDynamic(db)`: three anchor entries, "parent", "parent" and
      "webix_kids", are written under the keys the instance constants read
      as, which coincide, so the last one wins; the data and loading types
      are set to the constants.
     */
    method TreeDynamic()
      requires Valid()
      modifies this, anchors
      ensures Valid() && provider == old(provider) && anchors == old(anchors)
      ensures anchors.entries == Put(old(anchors.entries), ToJsString(InstanceConstant), "webix_kids")
      ensures dataType == InstanceConstant && loadingType == InstanceConstant
      ensures serverFields == old(serverFields) && clientFields == old(clientFields)
      ensures model == old(model) && request == old(request) && useOnly == old(useOnly)
    {
      var key := ToJsString(InstanceConstant);
      var fieldsAnchors := Put([], key, "parent");
      fieldsAnchors := Put(fieldsAnchors, key, "parent");
      fieldsAnchors := Put(fieldsAnchors, key, "webix_kids");
      assert fieldsAnchors == [(key, "webix_kids")];
      var _ := provider.SetFieldsAnchors(fieldsAnchors);
      var _ := provider.SetDataType(InstanceConstant);
      var _ := provider.SetDataLoadingType(InstanceConstant);
    }
  }

  /** `ControllerProvider`: reads and writes the fields of one controller. */
  class Provider {
    const controller: Controller

    constructor (controller: Controller)
      ensures this.controller == controller
    {
      this.controller := controller;
    }

    /** `getModelObj()`: the controller's own model object. */
    function GetModelObj(): (r: ModelRef)
      reads controller
      ensures r == controller.model
    {
      controller.model
    }

    /** `getRequestObj()`: the controller's own request object. */
    function GetRequestObj(): (r: Value)
      reads controller
      ensures r == controller.request
    {
      controller.request
    }

    /** `getDataType()`: the data type as last set, on the controller itself. */
    function GetDataType(): (r: Value)
      reads controller
      ensures r == controller.dataType
    {
      controller.dataType
    }

    /** `setDataType(dataType)`: only the data type changes, and the getter reads the new value. */
    method SetDataType(dataType: Value) returns (self: Provider)
      modifies controller
      ensures self == this && GetDataType() == dataType
      ensures controller.loadingType == old(controller.loadingType) && controller.useOnly == old(controller.useOnly)
      ensures controller.serverFields == old(controller.serverFields) && controller.clientFields == old(controller.clientFields)
      ensures controller.anchors == old(controller.anchors) && controller.provider == old(controller.provider)
      ensures controller.model == old(controller.model) && controller.request == old(controller.request)
    {
      controller.dataType := dataType;
      return this;
    }

    /** `getFields(fieldsType)`: the client vocabulary for "client", the server vocabulary otherwise. */
    function GetFields(fieldsType: Value): (fields: Fields)
      reads controller
      ensures LooseEqualsWord(fieldsType, "client") ==> fields == controller.clientFields
      ensures !LooseEqualsWord(fieldsType, "client") ==> fields == controller.serverFields
    {
      if LooseEqualsWord(fieldsType, "client") then controller.clientFields else controller.serverFields
    }

    /** `getFieldsAnchors()`: the live anchor object, not a copy. */
    function GetFieldsAnchors(): (r: Fields)
      reads controller
      ensures r == controller.anchors
    {
      controller.anchors
    }

    /**
      `setFieldsAnchors(anchors)`: each given role is written into the
      controller's existing anchor object, in order; the controller's fields
      themselves stay as they were.
     */
    method SetFieldsAnchors(anchors: Dict<string>) returns (self: Provider)
      modifies controller.anchors
      ensures self == this && GetFieldsAnchors() == old(GetFieldsAnchors())
      ensures controller.anchors.entries == Merged(old(controller.anchors.entries), anchors)
    {
      MergeInto(controller.anchors, anchors);
      return this;
    }

    /** `isFieldMapped(field)`: the server vocabulary has `field` as an own key. */
    function IsFieldMapped(field: string): (r: bool)
      reads controller, controller.serverFields
      ensures r <==> exists i :: 0 <= i < |controller.serverFields.entries| && controller.serverFields.entries[i].0 == field
    {
      KeyPosition(controller.serverFields.entries, field);
      HasKey(GetFields(Str("server")).entries, field)
    }

    /** `getUseOnlyMappedFields()`: the flag the controller was built with. */
    function GetUseOnlyMappedFields(): (r: bool)
      reads controller
      ensures r == controller.useOnly
    {
      controller.useOnly
    }

    /** `setDataLoadingType(dataLoadingType)`: only the loading type changes, and the getter reads the new value. */
    method SetDataLoadingType(dataLoadingType: Value) returns (self: Provider)
      modifies controller
      ensures self == this && GetDataLoadingType() == dataLoadingType
      ensures controller.dataType == old(controller.dataType) && controller.useOnly == old(controller.useOnly)
      ensures controller.serverFields == old(controller.serverFields) && controller.clientFields == old(controller.clientFields)
      ensures controller.anchors == old(controller.anchors) && controller.provider == old(controller.provider)
      ensures controller.model == old(controller.model) && controller.request == old(controller.request)
    {
      controller.loadingType := dataLoadingType;
      return this;
    }

    /** `getDataLoadingType()`: the loading type as last set, on the controller itself. */
    function GetDataLoadingType(): (r: Value)
      reads controller
      ensures r == controller.loadingType
    {
      controller.loadingType
    }
  }

  /** A key of a dictionary is the key of one of its entries. */
  lemma KeyPosition<V>(ps: Dict<V>, k: string)
    ensures HasKey(ps, k) <==> exists i :: 0 <= i < |ps| && ps[i].0 == k
  {
    if HasKey(ps, k) {
      var i :| 0 <= i < |Keys(ps)| && Keys(ps)[i] == k;
      assert ps[i].0 == k;
    }
  }

  /**
    After `map(v)` over a vocabulary with distinct values, the client
    vocabulary maps every value of `v` back to its key, and leaves every
    other name as it was.
   */
  lemma MapInverts(before: Dict<string>, v: Dict<string>, k: string)
    requires Injective(v)
    ensures forall i :: 0 <= i < |v| ==> Get(Invert(before, v), v[i].1) == Some(v[i].0)
    ensures (forall i :: 0 <= i < |v| ==> v[i].1 != k) ==> Get(Invert(before, v), k) == Get(before, k)
  {
    forall i | 0 <= i < |v| ensures Get(Invert(before, v), v[i].1) == Some(v[i].0) {
      InvertGet(before, v, i);
    }
    if forall i :: 0 <= i < |v| ==> v[i].1 != k {
      InvertOther(before, v, k);
    }
  }

  /**
    Every construction gives the anchors "id" and "order" themselves as
    values and leaves every other role as it was.
   */
  lemma DefaultAnchorsMerged(target: Dict<string>, k: string)
    ensures Get(Merged(target, DefaultAnchors), "id") == Some("id")
    ensures Get(Merged(target, DefaultAnchors), "order") == Some("order")
    ensures k != "id" && k != "order" ==> Get(Merged(target, DefaultAnchors), k) == Get(target, k)
  {
    var once := Put(target, "id", "id");
    assert DefaultAnchors[..1] == [("id", "id")];
    assert Merged(target, DefaultAnchors[..1]) == once;
    assert Merged(target, DefaultAnchors) == Put(once, "order", "order");
  }
}
