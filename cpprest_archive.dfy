/**
 * The JSON archive over the C++ REST SDK (`BitSerializer::Json::CppRest`):
 * the array, object and root scopes over a `web::json::value` document.
 * Parsing the input text and writing the output text (`Finalize`) belong
 * to the SDK and are not part of this model.
 */
module CppRestArchive {
  import opened Wrappers
  import opened Numbers
  import opened Paths
  import opened JsonTree

  /** `web::json::value::array(n)`: `n` null items. */
  function Nulls(n: nat): (r: seq<Json>)
    ensures |r| == n && forall k :: 0 <= k < n ==> r[k] == JNull
  {
    seq(n, _ => JNull)
  }

  /** The root's `bool` overload: only a boolean loads; a number does not, unlike a `bool` item or member. */
  function LoadRootBool(j: Json): (r: LoadResult<Value>)
    ensures r.Loaded? <==> j.JBool?
    ensures r.Loaded? ==> r.v == BoolVal(j.b)
    ensures !r.Thrown?
  {
    if j.JBool? then Loaded(BoolVal(j.b)) else NotLoaded
  }

  /** What the root scope loads into a field of type `target`. */
  function LoadRoot(j: Json, target: Target): LoadResult<Value> {
    if target.BoolTarget? then LoadRootBool(j) else LoadScalar(j, target)
  }

  /** The root and the nested scopes load alike except for a `bool` from a number. */
  lemma RootBoolIgnoresNumbers(j: Json, target: Target)
    ensures LoadRoot(j, target) != LoadScalar(j, target) <==> target.BoolTarget? && j.JNumber?
  {
  }

  /** `JsonArrayScope`: a cursor over the items of an array, of a size fixed when the scope is opened. */
  class ArrayScope {
    const doc: Document
    const loc: seq<Step>
    const mode: SerializeMode
    /** The path of `JsonScopeBase::GetPath`, fixed when the scope is opened. */
    const basePath: string
    /** `mSize`: the item count when the scope was opened. */
    const size: nat
    /** `mIndex`: the items loaded or saved so far. */
    var index: nat

    /** The node is an array of `size` items; when saving, the items not yet written are still null. */
    ghost predicate Valid()
      reads this, doc
    {
      var n := At(doc.root, loc);
      n.Some? && n.value.JArray? && |n.value.items| == size && index <= size
      && (mode == Save ==> forall k :: index <= k < size ==> n.value.items[k] == JNull)
    }

    function Items(): seq<Json>
      reads this, doc
      requires Valid()
    {
      At(doc.root, loc).value.items
    }

    constructor (doc: Document, loc: seq<Step>, mode: SerializeMode, basePath: string)
      requires At(doc.root, loc).Some? && At(doc.root, loc).value.JArray?
      requires mode == Save ==> forall k :: 0 <= k < |At(doc.root, loc).value.items| ==> At(doc.root, loc).value.items[k] == JNull
      ensures Valid() && this.doc == doc && this.loc == loc && this.mode == mode && this.basePath == basePath
      ensures size == |Items()| && index == 0
    {
      this.doc := doc;
      this.loc := loc;
      this.mode := mode;
      this.basePath := basePath;
      this.size := |At(doc.root, loc).value.items|;
      this.index := 0;
    }

    /** `GetEstimatedSize`: the item count of the node. */
    method GetEstimatedSize() returns (r: nat)
      requires Valid()
      ensures r == |Items()| == size
    {
      r := |Items()|;
    }

    /** `IsEnd`: every item has been loaded. */
    method IsEnd() returns (r: bool)
      requires Valid() && mode == Load
      ensures r <==> index == |Items()|
    {
      r := index == size;
    }

    /** `GetPath`: the base path and the index of the item last loaded or saved. */
    function GetPath(): string
      reads this
    {
      IndexPath(basePath, index)
    }

    /** `SerializeValue` when loading: the next item, in order, or OutOfRange once they are exhausted. */
    method LoadValue(target: Target) returns (r: LoadResult<Value>)
      requires Valid() && mode == Load
      modifies this
      ensures Valid() && Items() == old(Items())
      ensures old(index) < |Items()| ==> index == old(index) + 1 && r == LoadScalar(Items()[old(index)], target)
      ensures old(index) == |Items()| ==> index == old(index) && r == Thrown(OutOfRange)
    {
      if index < size {
        r := LoadScalar(Items()[index], target);
        index := index + 1;
      } else {
        r := Thrown(OutOfRange);
      }
    }

    /** `SaveJsonValue`: writes the slot at `mIndex`, which must exist, and advances. */
    method Store(x: Json)
      requires Valid() && mode == Save && index < size
      modifies this, doc
      ensures Valid() && index == old(index) + 1
      ensures Items() == old(Items())[old(index) := x]
      ensures doc.root == Put(old(doc.root), loc, JArray(old(Items())[old(index) := x]))
    {
      var items := Items();
      PutAt(doc.root, loc, JArray(items[index := x]));
      doc.root := Put(doc.root, loc, JArray(items[index := x]));
      index := index + 1;
    }

    /** `SerializeValue` when saving: the value fills the next slot; the slots before it keep what was saved there. */
    method SaveValue(v: Value)
      requires Valid() && mode == Save && index < size
      modifies this, doc
      ensures Valid() && index == old(index) + 1
      ensures Items() == old(Items())[old(index) := EncodeScalar(v)]
      ensures doc.root == Put(old(doc.root), loc, JArray(old(Items())[old(index) := EncodeScalar(v)]))
    {
      Store(EncodeScalar(v));
    }

    /**
     * `OpenObjectScope`: when loading, the next item as an object scope if
     * it is an object, OutOfRange past the end; when saving, a new empty
     * object in the next slot.
     */
    method OpenObjectScope() returns (child: ObjectScope?, thrown: Option<ErrorCode>)
      requires Valid() && (mode == Save ==> index < size)
      modifies this, doc
      ensures Valid()
      ensures mode == Load ==> doc.root == old(doc.root)
      ensures mode == Load && old(index) < |Items()| ==>
        (index == old(index) + 1 && thrown == None && (child != null <==> Items()[old(index)].JObject?))
      ensures mode == Load && old(index) == |Items()| ==> (index == old(index) && thrown == Some(OutOfRange) && child == null)
      ensures mode == Save ==>
        (thrown == None && child != null && index == old(index) + 1
        && Items() == old(Items())[old(index) := JObject([])]
        && doc.root == Put(old(doc.root), loc, JArray(old(Items())[old(index) := JObject([])])))
      ensures child != null ==>
        (fresh(child) && child.Valid() && child.doc == doc && child.mode == mode
        && child.loc == loc + [Item(old(index))] && child.basePath == ScopePath(GetPath(), ""))
    {
      var i := index;
      thrown := None;
      child := null;
      if mode == Load {
        if index < size {
          var item := Items()[index];
          index := index + 1;
          if item.JObject? {
            AtSnoc(doc.root, loc, Item(i));
            child := new ObjectScope(doc, loc + [Item(i)], mode, ScopePath(GetPath(), ""));
          }
        } else {
          thrown := Some(OutOfRange);
        }
      } else {
        Store(JObject([]));
        AtSnoc(doc.root, loc, Item(i));
        child := new ObjectScope(doc, loc + [Item(i)], mode, ScopePath(GetPath(), ""));
      }
    }

    /** `OpenArrayScope`: as `OpenObjectScope`, for an array; saving writes an array of `arraySize` nulls. */
    method OpenArrayScope(arraySize: nat) returns (child: ArrayScope?, thrown: Option<ErrorCode>)
      requires Valid() && (mode == Save ==> index < size)
      modifies this, doc
      ensures Valid()
      ensures mode == Load ==> doc.root == old(doc.root)
      ensures mode == Load && old(index) < |Items()| ==>
        (index == old(index) + 1 && thrown == None && (child != null <==> Items()[old(index)].JArray?))
      ensures mode == Load && old(index) == |Items()| ==> (index == old(index) && thrown == Some(OutOfRange) && child == null)
      ensures mode == Save ==>
        (thrown == None && child != null && index == old(index) + 1
        && Items() == old(Items())[old(index) := JArray(Nulls(arraySize))]
        && doc.root == Put(old(doc.root), loc, JArray(old(Items())[old(index) := JArray(Nulls(arraySize))])))
      ensures child != null ==>
        (fresh(child) && child.Valid() && child.doc == doc && child.mode == mode && child.index == 0
        && child.loc == loc + [Item(old(index))] && child.basePath == ScopePath(GetPath(), ""))
      ensures child != null && mode == Save ==> child.size == arraySize
    {
      var i := index;
      thrown := None;
      child := null;
      if mode == Load {
        if index < size {
          var item := Items()[index];
          index := index + 1;
          if item.JArray? {
            AtSnoc(doc.root, loc, Item(i));
            child := new ArrayScope(doc, loc + [Item(i)], mode, ScopePath(GetPath(), ""));
          }
        } else {
          thrown := Some(OutOfRange);
        }
      } else {
        Store(JArray(Nulls(arraySize)));
        AtSnoc(doc.root, loc, Item(i));
        child := new ArrayScope(doc, loc + [Item(i)], mode, ScopePath(GetPath(), ""));
      }
    }
  }

  /** `JsonObjectScope`: the members of an object, loaded and saved by key. */
  class ObjectScope {
    const doc: Document
    const loc: seq<Step>
    const mode: SerializeMode
    const basePath: string

    ghost predicate Valid()
      reads doc
    {
      At(doc.root, loc).Some? && At(doc.root, loc).value.JObject?
    }

    function Members(): seq<Member>
      reads doc
      requires Valid()
    {
      At(doc.root, loc).value.members
    }

    constructor (doc: Document, loc: seq<Step>, mode: SerializeMode, basePath: string)
      requires At(doc.root, loc).Some? && At(doc.root, loc).value.JObject?
      ensures Valid() && this.doc == doc && this.loc == loc && this.mode == mode && this.basePath == basePath
    {
      this.doc := doc;
      this.loc := loc;
      this.mode := mode;
      this.basePath := basePath;
    }

    /** `GetPath`: the parent's path and the key this scope was opened under. */
    function GetPath(): string {
      basePath
    }

    /** `cbegin`/`cend`: the keys a caller visits, one per member, in the order the object holds them. */
    function Keys(): (r: seq<string>)
      reads doc
      requires Valid()
      ensures |r| == |Members()| && forall i :: 0 <= i < |r| ==> r[i] == Members()[i].name
    {
      Names(Members())
    }

    /** `SerializeValue(key, ...)` when loading: the first member named `key`, or nothing. */
    method LoadValue(key: string, target: Target) returns (r: LoadResult<Value>)
      requires Valid() && mode == Load
      ensures r == LoadMember(Members(), key, target)
      ensures FindMember(Members(), key).None? ==> r == NotLoaded
    {
      r := LoadMember(Members(), key, target);
    }

    /** `SaveJsonValue`: the key must not be present yet; the new member is added after the existing ones. */
    method Store(key: string, x: Json)
      requires Valid() && mode == Save && FindMember(Members(), key).None?
      modifies doc
      ensures Valid() && Members() == old(Members()) + [Member(key, x)]
      ensures FindMember(Members(), key) == Some(|old(Members())|)
      ensures doc.root == Put(old(doc.root), loc, JObject(old(Members()) + [Member(key, x)]))
    {
      var members := Members();
      PutAt(doc.root, loc, JObject(members + [Member(key, x)]));
      FindMemberAppend(members, Member(key, x), key);
      doc.root := Put(doc.root, loc, JObject(members + [Member(key, x)]));
    }

    /** `SerializeValue(key, ...)` when saving: loading the key afterwards gives the value back, and every other key loads as before. */
    method SaveValue(key: string, v: Value)
      requires Valid() && mode == Save && FindMember(Members(), key).None?
      modifies doc
      ensures Valid() && Members() == old(Members()) + [Member(key, EncodeScalar(v))]
      ensures doc.root == Put(old(doc.root), loc, JObject(old(Members()) + [Member(key, EncodeScalar(v))]))
    {
      Store(key, EncodeScalar(v));
    }

    /** `OpenObjectScope(key)`: when loading, none unless the key holds an object; when saving, a new empty object under the key. */
    method OpenObjectScope(key: string) returns (child: ObjectScope?)
      requires Valid() && (mode == Save ==> FindMember(Members(), key).None?)
      modifies doc
      ensures Valid()
      ensures mode == Load ==>
        (doc.root == old(doc.root)
        && (child != null <==> FindMember(Members(), key).Some? && Members()[FindMember(Members(), key).value].value.JObject?))
      ensures mode == Save ==>
        (child != null && Members() == old(Members()) + [Member(key, JObject([]))]
        && doc.root == Put(old(doc.root), loc, JObject(old(Members()) + [Member(key, JObject([]))])))
      ensures child != null ==>
        (fresh(child) && child.Valid() && child.doc == doc && child.mode == mode
        && FindMember(Members(), key).Some? && child.loc == loc + [Field(FindMember(Members(), key).value)] && child.GetPath() == ScopePath(GetPath(), key))
    {
      child := null;
      if mode == Load {
        var found := FindMember(Members(), key);
        if found.Some? && Members()[found.value].value.JObject? {
          AtSnoc(doc.root, loc, Field(found.value));
          child := new ObjectScope(doc, loc + [Field(found.value)], mode, ScopePath(basePath, key));
        }
      } else {
        Store(key, JObject([]));
        var p := |Members()| - 1;
        AtSnoc(doc.root, loc, Field(p));
        child := new ObjectScope(doc, loc + [Field(p)], mode, ScopePath(basePath, key));
      }
    }

    /** `OpenArrayScope(key, arraySize)`: as `OpenObjectScope`, for an array; saving stores `arraySize` nulls. */
    method OpenArrayScope(key: string, arraySize: nat) returns (child: ArrayScope?)
      requires Valid() && (mode == Save ==> FindMember(Members(), key).None?)
      modifies doc
      ensures Valid()
      ensures mode == Load ==>
        (doc.root == old(doc.root)
        && (child != null <==> FindMember(Members(), key).Some? && Members()[FindMember(Members(), key).value].value.JArray?))
      ensures mode == Save ==>
        (child != null && Members() == old(Members()) + [Member(key, JArray(Nulls(arraySize)))]
        && doc.root == Put(old(doc.root), loc, JObject(old(Members()) + [Member(key, JArray(Nulls(arraySize)))])))
      ensures child != null ==>
        (fresh(child) && child.Valid() && child.doc == doc && child.mode == mode && child.index == 0
        && FindMember(Members(), key).Some? && child.loc == loc + [Field(FindMember(Members(), key).value)] && child.basePath == ScopePath(GetPath(), key))
      ensures child != null && mode == Save ==> child.size == arraySize
    {
      child := null;
      if mode == Load {
        var found := FindMember(Members(), key);
        if found.Some? && Members()[found.value].value.JArray? {
          AtSnoc(doc.root, loc, Field(found.value));
          child := new ArrayScope(doc, loc + [Field(found.value)], mode, ScopePath(basePath, key));
        }
      } else {
        Store(key, JArray(Nulls(arraySize)));
        var p := |Members()| - 1;
        AtSnoc(doc.root, loc, Field(p));
        child := new ArrayScope(doc, loc + [Field(p)], mode, ScopePath(basePath, key));
      }
    }
  }

  /** `JsonRootScope`: one value, array or object without a key, in the document `mRootJson`. */
  class RootScope {
    const doc: Document
    const mode: SerializeMode

    constructor (doc: Document, mode: SerializeMode)
      ensures this.doc == doc && this.mode == mode
    {
      this.doc := doc;
      this.mode := mode;
    }

    /** `GetPath` of the root: no parent and no key. */
    function GetPath(): string {
      ScopePath("", "")
    }

    method LoadValue(target: Target) returns (r: LoadResult<Value>)
      requires mode == Load
      ensures r == LoadRoot(doc.root, target)
    {
      r := LoadRoot(doc.root, target);
    }

    /** Saving replaces the whole document. */
    method SaveValue(v: Value)
      requires mode == Save
      modifies doc
      ensures doc.root == EncodeScalar(v)
    {
      doc.root := EncodeScalar(v);
    }

    method OpenObjectScope() returns (child: ObjectScope?)
      modifies doc
      ensures mode == Load ==> doc.root == old(doc.root) && (child != null <==> doc.root.JObject?)
      ensures mode == Save ==> child != null && doc.root == JObject([])
      ensures child != null ==>
        (fresh(child) && child.Valid() && child.doc == doc && child.mode == mode && child.loc == [] && child.GetPath() == "")
    {
      if mode == Save {
        doc.root := JObject([]);
      }
      child := null;
      if doc.root.JObject? {
        child := new ObjectScope(doc, [], mode, GetPath());
      }
    }

    method OpenArrayScope(arraySize: nat) returns (child: ArrayScope?)
      modifies doc
      ensures mode == Load ==> doc.root == old(doc.root) && (child != null <==> doc.root.JArray?)
      ensures mode == Save ==> child != null && doc.root == JArray(Nulls(arraySize)) && child.size == arraySize
      ensures child != null ==>
        (fresh(child) && child.Valid() && child.doc == doc && child.mode == mode && child.index == 0
        && child.loc == [] && child.basePath == "")
    {
      if mode == Save {
        doc.root := JArray(Nulls(arraySize));
      }
      child := null;
      if doc.root.JArray? {
        child := new ArrayScope(doc, [], mode, GetPath());
      }
    }
  }
}
