/**
 * The earlier RapidJson archive (`archives/bitserializer_rapidjson`), over
 * a UTF-16 `rapidjson::GenericValue` document with `std::wstring` keys.
 * Its scopes load only numbers into arithmetic fields, take a `bool` only
 * from a boolean, do not compile for a `nullptr_t` field, let an array be
 * read past its end without an error, and write the root at most once.
 * Strings are sequences of characters here; the UTF-16 code units are not
 * modelled.
 */
module LegacyRapidJsonArchive {
  import opened Wrappers
  import opened Numbers
  import opened Paths
  import opened JsonTree

  /** The fields the legacy archive serializes: every fundamental type but `nullptr_t`, and strings. */
  predicate LegacyTarget(target: Target) {
    ValidTarget(target) && !target.NullTarget?
  }

  /**
   * `SerializeValue(bool&)`, `LoadFundamentalValue` and `LoadString`: a
   * `bool` only from a boolean, an arithmetic field only from a number,
   * a string only from a string. An integral field reads the number
   * through RapidJson's getter for its type, whose assertion fails unless
   * the number holds that type.
   */
  function LegacyLoad(j: Json, target: Target): (r: LoadResult<Value>)
    requires !target.NullTarget?
    ensures r.Loaded? ==> HasType(r.v, target)
    ensures !r.Thrown?
    ensures r.Loaded? || r.AssertionFailed? <==>
      (if target.BoolTarget? then j.JBool?
       else if target.StringTarget? then j.JString?
       else j.JNumber?)
    ensures r.AssertionFailed? <==> target.IntTarget? && j.JNumber? && !RapidHolds(j.n, GetterType(target.t))
  {
    match target
    case BoolTarget => if j.JBool? then Loaded(BoolVal(j.b)) else NotLoaded
    case IntTarget(t) =>
      if j.JNumber? then
        if RapidHolds(j.n, GetterType(t)) then Loaded(IntVal(Wrap(j.n.i, t))) else AssertionFailed
      else NotLoaded
    case FloatTarget => if j.JNumber? then Loaded(FloatVal(NumberAsDouble(j.n))) else NotLoaded
    case StringTarget => if j.JString? then Loaded(StrVal(j.s)) else NotLoaded
  }

  /**
   * Where the legacy archive loads, the newer RapidJson archive loads the
   * same value, and where a legacy getter fails its assertion the newer
   * one does too; the legacy archive refuses a boolean for an integer and
   * a number for a `bool`.
   */
  lemma LegacyLoadIsNarrower(j: Json, target: Target)
    requires !target.NullTarget?
    ensures LegacyLoad(j, target).Loaded? ==> LegacyLoad(j, target) == RapidLoadScalar(j, target)
    ensures LegacyLoad(j, target).AssertionFailed? ==> RapidLoadScalar(j, target).AssertionFailed?
    ensures RapidLoadScalar(j, target).Loaded? && !LegacyLoad(j, target).Loaded? <==>
      (target.BoolTarget? && j.JNumber? && RapidHolds(j.n, Int32)) || (target.IntTarget? && j.JBool?)
  {
  }

  /**
   * A value saved by the legacy scopes loads back unchanged into a field
   * of the same type, unless `GetInt` refuses it, in which case its
   * assertion fails.
   */
  lemma LegacyRoundTrip(v: Value, target: Target)
    requires LegacyTarget(target) && HasType(v, target)
    ensures !GetIntRefuses(v, target) ==> LegacyLoad(EncodeScalar(v), target) == Loaded(v)
    ensures GetIntRefuses(v, target) ==> LegacyLoad(EncodeScalar(v), target) == AssertionFailed
  {
    RapidScalarRoundTrip(v, target);
    LegacyLoadIsNarrower(EncodeScalar(v), target);
  }

  /** A value saved at the root, through `SetInt` for the narrow integral types, loads back unchanged at the root. */
  lemma LegacyRootRoundTrip(v: Value, target: Target)
    requires LegacyTarget(target) && HasType(v, target)
    ensures LegacyLoad(RootEncodeAsWritten(v, target), target) == Loaded(v)
  {
    RootEncodeAsWrittenRoundTrip(v, target);
    LegacyLoadIsNarrower(RootEncodeAsWritten(v, target), target);
  }

  /** Loading a field of an object by key. */
  function LegacyLoadMember(members: seq<Member>, key: string, target: Target): (r: LoadResult<Value>)
    requires !target.NullTarget?
    ensures FindMember(members, key).None? ==> r == NotLoaded
    ensures FindMember(members, key).Some? ==> r == LegacyLoad(members[FindMember(members, key).value].value, target)
  {
    match FindMember(members, key)
    case None => NotLoaded
    case Some(p) => LegacyLoad(members[p].value, target)
  }

  /** `RapidJsonArrayScope` of the legacy archive. */
  class ArrayScope {
    const doc: Document
    const loc: seq<Step>
    const mode: SerializeMode
    const basePath: string
    /** `Capacity()` of the node. */
    const capacity: nat
    /** The items passed by `mValueIt` when loading; the items pushed back when saving. */
    var index: nat

    ghost predicate Valid()
      reads this, doc
    {
      var n := At(doc.root, loc);
      n.Some? && n.value.JArray?
      && (mode == Load ==> index <= |n.value.items| == capacity)
      && (mode == Save ==> index == |n.value.items| <= capacity)
    }

    function Items(): seq<Json>
      reads this, doc
      requires Valid()
    {
      At(doc.root, loc).value.items
    }

    constructor (doc: Document, loc: seq<Step>, mode: SerializeMode, basePath: string, capacity: nat)
      requires At(doc.root, loc).Some? && At(doc.root, loc).value.JArray?
      requires mode == Load ==> |At(doc.root, loc).value.items| == capacity
      requires mode == Save ==> At(doc.root, loc).value.items == []
      ensures Valid() && this.doc == doc && this.loc == loc && this.mode == mode
      ensures this.basePath == basePath && this.capacity == capacity && index == 0
    {
      this.doc := doc;
      this.loc := loc;
      this.mode := mode;
      this.basePath := basePath;
      this.capacity := capacity;
      this.index := 0;
    }

    /** `GetSize`: the capacity of the node, which is its item count when loading. */
    function GetSize(): (r: nat)
      reads this, doc
      requires Valid()
      ensures mode == Load ==> r == |Items()|
    {
      capacity
    }

    /** `GetPath`: the base path and the index of the item last loaded or saved. */
    function GetPath(): string
      reads this
    {
      IndexPath(basePath, index)
    }

    /**
     * `SerializeValue`/`SerializeString` when loading (`NextElement`): the
     * next item, in order; past the end nothing happens, no error is raised
     * and the field keeps its value.
     */
    method LoadValue(target: Target) returns (r: LoadResult<Value>)
      requires Valid() && mode == Load && !target.NullTarget?
      modifies this
      ensures Valid() && Items() == old(Items())
      ensures old(index) < |Items()| ==> index == old(index) + 1 && r == LegacyLoad(Items()[old(index)], target)
      ensures old(index) == |Items()| ==> index == old(index) && r == NotLoaded
    {
      if index < |Items()| {
        r := LegacyLoad(Items()[index], target);
        index := index + 1;
      } else {
        r := NotLoaded;
      }
    }

    /** `SaveJsonValue`: `PushBack`, which must stay within the reserved capacity. */
    method Append(x: Json)
      requires Valid() && mode == Save && |Items()| < capacity
      modifies this, doc
      ensures Valid() && index == old(index) + 1
      ensures Items() == old(Items()) + [x]
      ensures doc.root == Put(old(doc.root), loc, JArray(old(Items()) + [x]))
    {
      var items := Items();
      PutAt(doc.root, loc, JArray(items + [x]));
      doc.root := Put(doc.root, loc, JArray(items + [x]));
      index := index + 1;
    }

    /** `SerializeValue`/`SerializeString` when saving: exactly one item appended. */
    method SaveValue(v: Value)
      requires Valid() && mode == Save && |Items()| < capacity
      modifies this, doc
      ensures Valid() && index == old(index) + 1
      ensures Items() == old(Items()) + [EncodeScalar(v)]
      ensures doc.root == Put(old(doc.root), loc, JArray(old(Items()) + [EncodeScalar(v)]))
    {
      Append(EncodeScalar(v));
    }

    /** `OpenObjectScope`: the next item if it is an object (none past the end), or a new empty object pushed back. */
    method OpenObjectScope() returns (child: ObjectScope?)
      requires Valid() && (mode == Save ==> |Items()| < capacity)
      modifies this, doc
      ensures Valid()
      ensures mode == Load ==> doc.root == old(doc.root)
      ensures mode == Load && old(index) < |Items()| ==>
        (index == old(index) + 1 && (child != null <==> Items()[old(index)].JObject?))
      ensures mode == Load && old(index) == |Items()| ==> index == old(index) && child == null
      ensures mode == Save ==>
        (child != null && index == old(index) + 1
        && Items() == old(Items()) + [JObject([])]
        && doc.root == Put(old(doc.root), loc, JArray(old(Items()) + [JObject([])])))
      ensures child != null ==>
        (fresh(child) && child.Valid() && child.doc == doc && child.mode == mode
        && child.loc == loc + [Item(old(index))] && child.basePath == ScopePath(GetPath(), ""))
    {
      var i := index;
      child := null;
      if mode == Load {
        if index < |Items()| {
          var item := Items()[index];
          index := index + 1;
          if item.JObject? {
            AtSnoc(doc.root, loc, Item(i));
            child := new ObjectScope(doc, loc + [Item(i)], mode, ScopePath(GetPath(), ""));
          }
        }
      } else {
        Append(JObject([]));
        AtSnoc(doc.root, loc, Item(i));
        child := new ObjectScope(doc, loc + [Item(i)], mode, ScopePath(GetPath(), ""));
      }
    }

    /** `OpenArrayScope`: the next item if it is an array, or a new empty array with `arraySize` reserved. */
    method OpenArrayScope(arraySize: nat) returns (child: ArrayScope?)
      requires Valid() && (mode == Save ==> |Items()| < capacity)
      modifies this, doc
      ensures Valid()
      ensures mode == Load ==> doc.root == old(doc.root)
      ensures mode == Load && old(index) < |Items()| ==>
        (index == old(index) + 1 && (child != null <==> Items()[old(index)].JArray?))
      ensures mode == Load && old(index) == |Items()| ==> index == old(index) && child == null
      ensures mode == Save ==>
        (child != null && index == old(index) + 1
        && Items() == old(Items()) + [JArray([])]
        && doc.root == Put(old(doc.root), loc, JArray(old(Items()) + [JArray([])])))
      ensures child != null ==>
        (fresh(child) && child.Valid() && child.doc == doc && child.mode == mode && child.index == 0
        && child.loc == loc + [Item(old(index))] && child.basePath == ScopePath(GetPath(), ""))
      ensures child != null && mode == Save ==> child.capacity == arraySize
    {
      var i := index;
      child := null;
      if mode == Load {
        if index < |Items()| {
          var item := Items()[index];
          index := index + 1;
          if item.JArray? {
            AtSnoc(doc.root, loc, Item(i));
            child := new ArrayScope(doc, loc + [Item(i)], mode, ScopePath(GetPath(), ""), |item.items|);
          }
        }
      } else {
        Append(JArray([]));
        AtSnoc(doc.root, loc, Item(i));
        child := new ArrayScope(doc, loc + [Item(i)], mode, ScopePath(GetPath(), ""), arraySize);
      }
    }
  }

  /** `RapidJsonObjectScope` of the legacy archive. */
  class ObjectScope {
    const doc: Document
    const loc: seq<Step>
    const mode: SerializeMode
    const basePath: string

    ghost predicate Valid()
      reads doc
    {
      At(doc.root, loc).Some? && At(doc.root, loc).value.JObject?
    }

    function Members(): seq<Member>
      reads doc
      requires Valid()
    {
      At(doc.root, loc).value.members
    }

    constructor (doc: Document, loc: seq<Step>, mode: SerializeMode, basePath: string)
      requires At(doc.root, loc).Some? && At(doc.root, loc).value.JObject?
      ensures Valid() && this.doc == doc && this.loc == loc && this.mode == mode && this.basePath == basePath
    {
      this.doc := doc;
      this.loc := loc;
      this.mode := mode;
      this.basePath := basePath;
    }

    /** `GetPath`: the parent's path and the key this scope was opened under. */
    function GetPath(): string {
      basePath
    }

    /** `cbegin`/`cend`: the member names, in document order. */
    function Keys(): (r: seq<string>)
      reads doc
      requires Valid()
      ensures |r| == |Members()| && forall i :: 0 <= i < |r| ==> r[i] == Members()[i].name
    {
      Names(Members())
    }

    /** `SerializeValue(key, ...)`/`SerializeString(key, ...)` when loading: a missing key loads nothing. */
    method LoadValue(key: string, target: Target) returns (r: LoadResult<Value>)
      requires Valid() && mode == Load && !target.NullTarget?
      ensures r == LegacyLoadMember(Members(), key, target)
      ensures FindMember(Members(), key).None? ==> r == NotLoaded
    {
      r := LegacyLoadMember(Members(), key, target);
    }

    /** `SaveJsonValue`: the key must not be a member yet; `AddMember` appends it. */
    method Store(key: string, x: Json)
      requires Valid() && mode == Save && FindMember(Members(), key).None?
      modifies doc
      ensures Valid() && Members() == old(Members()) + [Member(key, x)]
      ensures FindMember(Members(), key) == Some(|old(Members())|)
      ensures doc.root == Put(old(doc.root), loc, JObject(old(Members()) + [Member(key, x)]))
    {
      var members := Members();
      PutAt(doc.root, loc, JObject(members + [Member(key, x)]));
      FindMemberAppend(members, Member(key, x), key);
      doc.root := Put(doc.root, loc, JObject(members + [Member(key, x)]));
    }

    /** `SerializeValue(key, ...)`/`SerializeString(key, ...)` when saving: one member added after the existing ones. */
    method SaveValue(key: string, v: Value)
      requires Valid() && mode == Save && FindMember(Members(), key).None?
      modifies doc
      ensures Valid() && Members() == old(Members()) + [Member(key, EncodeScalar(v))]
      ensures doc.root == Put(old(doc.root), loc, JObject(old(Members()) + [Member(key, EncodeScalar(v))]))
    {
      Store(key, EncodeScalar(v));
    }

    /** `OpenObjectScopeImpl`: the member if it is an object, or a new empty object added under the key. */
    method OpenObjectScope(key: string) returns (child: ObjectScope?)
      requires Valid() && (mode == Save ==> FindMember(Members(), key).None?)
      modifies doc
      ensures Valid()
      ensures mode == Load ==>
        (doc.root == old(doc.root)
        && (child != null <==> FindMember(Members(), key).Some? && Members()[FindMember(Members(), key).value].value.JObject?))
      ensures mode == Save ==>
        (child != null && Members() == old(Members()) + [Member(key, JObject([]))]
        && doc.root == Put(old(doc.root), loc, JObject(old(Members()) + [Member(key, JObject([]))])))
      ensures child != null ==>
        (fresh(child) && child.Valid() && child.doc == doc && child.mode == mode
        && FindMember(Members(), key).Some? && child.loc == loc + [Field(FindMember(Members(), key).value)]
        && child.GetPath() == ScopePath(GetPath(), key))
    {
      child := null;
      if mode == Load {
        var found := FindMember(Members(), key);
        if found.Some? && Members()[found.value].value.JObject? {
          AtSnoc(doc.root, loc, Field(found.value));
          child := new ObjectScope(doc, loc + [Field(found.value)], mode, ScopePath(basePath, key));
        }
      } else {
        Store(key, JObject([]));
        var p := |Members()| - 1;
        AtSnoc(doc.root, loc, Field(p));
        child := new ObjectScope(doc, loc + [Field(p)], mode, ScopePath(basePath, key));
      }
    }

    /** `OpenArrayScopeImpl`: the member if it is an array, or a new empty array with `arraySize` reserved. */
    method OpenArrayScope(key: string, arraySize: nat) returns (child: ArrayScope?)
      requires Valid() && (mode == Save ==> FindMember(Members(), key).None?)
      modifies doc
      ensures Valid()
      ensures mode == Load ==>
        (doc.root == old(doc.root)
        && (child != null <==> FindMember(Members(), key).Some? && Members()[FindMember(Members(), key).value].value.JArray?))
      ensures mode == Save ==>
        (child != null && Members() == old(Members()) + [Member(key, JArray([]))]
        && doc.root == Put(old(doc.root), loc, JObject(old(Members()) + [Member(key, JArray([]))])))
      ensures child != null ==>
        (fresh(child) && child.Valid() && child.doc == doc && child.mode == mode && child.index == 0
        && FindMember(Members(), key).Some? && child.loc == loc + [Field(FindMember(Members(), key).value)]
        && child.basePath == ScopePath(GetPath(), key))
      ensures child != null && mode == Save ==> child.capacity == arraySize
    {
      child := null;
      if mode == Load {
        var found := FindMember(Members(), key);
        if found.Some? {
          var node := Members()[found.value].value;
          if node.JArray? {
            AtSnoc(doc.root, loc, Field(found.value));
            child := new ArrayScope(doc, loc + [Field(found.value)], mode, ScopePath(basePath, key), |node.items|);
          }
        }
      } else {
        Store(key, JArray([]));
        var p := |Members()| - 1;
        AtSnoc(doc.root, loc, Field(p));
        child := new ArrayScope(doc, loc + [Field(p)], mode, ScopePath(basePath, key), arraySize);
      }
    }
  }

  /** `RapidJsonRootScope` of the legacy archive: every save asserts that the root is still null. */
  class RootScope {
    const doc: Document
    const mode: SerializeMode

    constructor (doc: Document, mode: SerializeMode)
      ensures this.doc == doc && this.mode == mode
    {
      this.doc := doc;
      this.mode := mode;
    }

    /** `GetPath` of the root: no parent and no key. */
    function GetPath(): string {
      ScopePath("", "")
    }

    method LoadValue(target: Target) returns (r: LoadResult<Value>)
      requires mode == Load && !target.NullTarget?
      ensures r == LegacyLoad(doc.root, target)
    {
      r := LegacyLoad(doc.root, target);
    }

    /**
     * Saving a value (`SetBool`, `SaveFundamentalValue`, `SetString`): the
     * root, still null, becomes a node that is not null, so it cannot be
     * written again. An integral field narrower than 64 bits goes through
     * `SetInt`.
     */
    method SaveValue(v: Value, target: Target)
      requires mode == Save && doc.root.JNull?
      requires !target.NullTarget? && HasType(v, target)
      modifies doc
      ensures doc.root == RootEncodeAsWritten(v, target) && !doc.root.JNull?
    {
      doc.root := RootEncodeAsWritten(v, target);
    }

    /** `OpenArrayScope`: when saving, the null root becomes an empty array with `arraySize` reserved. */
    method OpenArrayScope(arraySize: nat) returns (child: ArrayScope?)
      requires mode == Save ==> doc.root.JNull?
      modifies doc
      ensures mode == Load ==> doc.root == old(doc.root) && (child != null <==> doc.root.JArray?)
      ensures mode == Save ==> child != null && doc.root == JArray([]) && child.capacity == arraySize
      ensures child != null ==>
        (fresh(child) && child.Valid() && child.doc == doc && child.mode == mode && child.index == 0
        && child.loc == [] && child.basePath == "")
    {
      child := null;
      if mode == Save {
        doc.root := JArray([]);
        child := new ArrayScope(doc, [], mode, GetPath(), arraySize);
      } else if doc.root.JArray? {
        child := new ArrayScope(doc, [], mode, GetPath(), |doc.root.items|);
      }
    }

    /** `OpenObjectScope`: when saving, the null root becomes an empty object. */
    method OpenObjectScope() returns (child: ObjectScope?)
      requires mode == Save ==> doc.root.JNull?
      modifies doc
      ensures mode == Load ==> doc.root == old(doc.root) && (child != null <==> doc.root.JObject?)
      ensures mode == Save ==> child != null && doc.root == JObject([])
      ensures child != null ==>
        (fresh(child) && child.Valid() && child.doc == doc && child.mode == mode && child.loc == [] && child.GetPath() == "")
    {
      if mode == Save {
        doc.root := JObject([]);
      }
      child := null;
      if doc.root.JObject? {
        child := new ObjectScope(doc, [], mode, GetPath());
      }
    }
  }
}
