/**
 * The JSON archive over RapidJson (`BitSerializer::Json::RapidJson`, the
 * UTF-8 one): the array, object and root scopes over a
 * `rapidjson::GenericValue` document, and the choice of output encoding.
 * Parsing and writing the text belong to RapidJson and are not part of
 * this model.
 *
 * An array being saved has a capacity, reserved when it is opened
 * (`Reserve(arraySize)`); here it is a constant of the scope. An array
 * read from a document has exactly its items as capacity.
 */
module RapidJsonArchive {
  import opened Wrappers
  import opened Numbers
  import opened Paths
  import opened JsonTree

  /** `RapidJsonArrayScope`: an iterator over the items when loading; items pushed back one by one when saving. */
  class ArrayScope {
    const doc: Document
    const loc: seq<Step>
    const mode: SerializeMode
    /** The path of `RapidJsonScopeBase::GetPath`, fixed when the scope is opened. */
    const basePath: string
    /** `Capacity()` of the node. */
    const capacity: nat
    /** The items passed by `mValueIt` when loading; the items pushed back when saving. */
    var index: nat

    /** When loading the iterator is inside the array, which holds `capacity` items; when saving the array holds the `index` items pushed, within capacity. */
    ghost predicate Valid()
      reads this, doc
    {
      var n := At(doc.root, loc);
      n.Some? && n.value.JArray?
      && (mode == Load ==> index <= |n.value.items| == capacity)
      && (mode == Save ==> index == |n.value.items| <= capacity)
    }

    function Items(): seq<Json>
      reads this, doc
      requires Valid()
    {
      At(doc.root, loc).value.items
    }

    constructor (doc: Document, loc: seq<Step>, mode: SerializeMode, basePath: string, capacity: nat)
      requires At(doc.root, loc).Some? && At(doc.root, loc).value.JArray?
      requires mode == Load ==> |At(doc.root, loc).value.items| == capacity
      requires mode == Save ==> At(doc.root, loc).value.items == []
      ensures Valid() && this.doc == doc && this.loc == loc && this.mode == mode
      ensures this.basePath == basePath && this.capacity == capacity && index == 0
    {
      this.doc := doc;
      this.loc := loc;
      this.mode := mode;
      this.basePath := basePath;
      this.capacity := capacity;
      this.index := 0;
    }

    /** `GetEstimatedSize`: the capacity of the node. */
    method GetEstimatedSize() returns (r: nat)
      requires Valid()
      ensures r == capacity
      ensures mode == Load ==> r == |Items()|
    {
      r := capacity;
    }

    /** `IsEnd`: the iterator is at the end of the array. */
    method IsEnd() returns (r: bool)
      requires Valid() && mode == Load
      ensures r <==> index == |Items()|
    {
      r := index == |Items()|;
    }

    /** `GetPath`: the base path and the index of the item last loaded (iterator distance) or saved (`Size()`). */
    function GetPath(): string
      reads this
    {
      IndexPath(basePath, index)
    }

    /** `LoadNextItem` and `LoadValue`: the next item, in order, or OutOfRange at the end. */
    method LoadValue(target: Target) returns (r: LoadResult<Value>)
      requires Valid() && mode == Load
      modifies this
      ensures Valid() && Items() == old(Items())
      ensures old(index) < |Items()| ==> index == old(index) + 1 && r == RapidLoadScalar(Items()[old(index)], target)
      ensures old(index) == |Items()| ==> index == old(index) && r == Thrown(OutOfRange)
    {
      if index < |Items()| {
        r := RapidLoadScalar(Items()[index], target);
        index := index + 1;
      } else {
        r := Thrown(OutOfRange);
      }
    }

    /** `SaveJsonValue`: `PushBack`, which must stay within the reserved capacity. */
    method Append(x: Json)
      requires Valid() && mode == Save && |Items()| < capacity
      modifies this, doc
      ensures Valid() && index == old(index) + 1
      ensures Items() == old(Items()) + [x]
      ensures doc.root == Put(old(doc.root), loc, JArray(old(Items()) + [x]))
    {
      var items := Items();
      PutAt(doc.root, loc, JArray(items + [x]));
      doc.root := Put(doc.root, loc, JArray(items + [x]));
      index := index + 1;
    }

    /** `SerializeValue` when saving: exactly one item appended, the earlier ones unchanged. */
    method SaveValue(v: Value)
      requires Valid() && mode == Save && |Items()| < capacity
      modifies this, doc
      ensures Valid() && index == old(index) + 1
      ensures Items() == old(Items()) + [EncodeScalar(v)]
      ensures doc.root == Put(old(doc.root), loc, JArray(old(Items()) + [EncodeScalar(v)]))
    {
      Append(EncodeScalar(v));
    }

    /** `OpenObjectScope`: the next item if it is an object (OutOfRange at the end), or a new empty object pushed back. */
    method OpenObjectScope() returns (child: ObjectScope?, thrown: Option<ErrorCode>)
      requires Valid() && (mode == Save ==> |Items()| < capacity)
      modifies this, doc
      ensures Valid()
      ensures mode == Load ==> doc.root == old(doc.root)
      ensures mode == Load && old(index) < |Items()| ==>
        (index == old(index) + 1 && thrown == None && (child != null <==> Items()[old(index)].JObject?))
      ensures mode == Load && old(index) == |Items()| ==> (index == old(index) && thrown == Some(OutOfRange) && child == null)
      ensures mode == Save ==>
        (thrown == None && child != null && index == old(index) + 1
        && Items() == old(Items()) + [JObject([])]
        && doc.root == Put(old(doc.root), loc, JArray(old(Items()) + [JObject([])])))
      ensures child != null ==>
        (fresh(child) && child.Valid() && child.doc == doc && child.mode == mode
        && child.loc == loc + [Item(old(index))] && child.basePath == ScopePath(GetPath(), ""))
    {
      var i := index;
      thrown := None;
      child := null;
      if mode == Load {
        if index < |Items()| {
          var item := Items()[index];
          index := index + 1;
          if item.JObject? {
            AtSnoc(doc.root, loc, Item(i));
            child := new ObjectScope(doc, loc + [Item(i)], mode, ScopePath(GetPath(), ""));
          }
        } else {
          thrown := Some(OutOfRange);
        }
      } else {
        Append(JObject([]));
        AtSnoc(doc.root, loc, Item(i));
        child := new ObjectScope(doc, loc + [Item(i)], mode, ScopePath(GetPath(), ""));
      }
    }

    /** `OpenArrayScope`: the next item if it is an array, or a new empty array with `arraySize` reserved, pushed back. */
    method OpenArrayScope(arraySize: nat) returns (child: ArrayScope?, thrown: Option<ErrorCode>)
      requires Valid() && (mode == Save ==> |Items()| < capacity)
      modifies this, doc
      ensures Valid()
      ensures mode == Load ==> doc.root == old(doc.root)
      ensures mode == Load && old(index) < |Items()| ==>
        (index == old(index) + 1 && thrown == None && (child != null <==> Items()[old(index)].JArray?))
      ensures mode == Load && old(index) == |Items()| ==> (index == old(index) && thrown == Some(OutOfRange) && child == null)
      ensures mode == Save ==>
        (thrown == None && child != null && index == old(index) + 1
        && Items() == old(Items()) + [JArray([])]
        && doc.root == Put(old(doc.root), loc, JArray(old(Items()) + [JArray([])])))
      ensures child != null ==>
        (fresh(child) && child.Valid() && child.doc == doc && child.mode == mode && child.index == 0
        && child.loc == loc + [Item(old(index))] && child.basePath == ScopePath(GetPath(), ""))
      ensures child != null && mode == Save ==> child.capacity == arraySize
    {
      var i := index;
      thrown := None;
      child := null;
      if mode == Load {
        if index < |Items()| {
          var item := Items()[index];
          index := index + 1;
          if item.JArray? {
            AtSnoc(doc.root, loc, Item(i));
            child := new ArrayScope(doc, loc + [Item(i)], mode, ScopePath(GetPath(), ""), |item.items|);
          }
        } else {
          thrown := Some(OutOfRange);
        }
      } else {
        Append(JArray([]));
        AtSnoc(doc.root, loc, Item(i));
        child := new ArrayScope(doc, loc + [Item(i)], mode, ScopePath(GetPath(), ""), arraySize);
      }
    }
  }

  /** `RapidJsonObjectScope`: the members of an object, loaded and saved by key. */
  class ObjectScope {
    const doc: Document
    const loc: seq<Step>
    const mode: SerializeMode
    const basePath: string

    ghost predicate Valid()
      reads doc
    {
      At(doc.root, loc).Some? && At(doc.root, loc).value.JObject?
    }

    function Members(): seq<Member>
      reads doc
      requires Valid()
    {
      At(doc.root, loc).value.members
    }

    constructor (doc: Document, loc: seq<Step>, mode: SerializeMode, basePath: string)
      requires At(doc.root, loc).Some? && At(doc.root, loc).value.JObject?
      ensures Valid() && this.doc == doc && this.loc == loc && this.mode == mode && this.basePath == basePath
    {
      this.doc := doc;
      this.loc := loc;
      this.mode := mode;
      this.basePath := basePath;
    }

    /** `GetPath`: the parent's path and the key this scope was opened under. */
    function GetPath(): string {
      basePath
    }

    /** `cbegin`/`cend`: the member names, in document order. */
    function Keys(): (r: seq<string>)
      reads doc
      requires Valid()
      ensures |r| == |Members()| && forall i :: 0 <= i < |r| ==> r[i] == Members()[i].name
    {
      Names(Members())
    }

    /** `SerializeValue(key, ...)` when loading: the member `FindMember` finds, or nothing. */
    method LoadValue(key: string, target: Target) returns (r: LoadResult<Value>)
      requires Valid() && mode == Load
      ensures r == RapidLoadMember(Members(), key, target)
      ensures FindMember(Members(), key).None? ==> r == NotLoaded
    {
      r := RapidLoadMember(Members(), key, target);
    }

    /** `SaveJsonValue`: the key must not be a member yet; `AddMember` appends it. */
    method Store(key: string, x: Json)
      requires Valid() && mode == Save && FindMember(Members(), key).None?
      modifies doc
      ensures Valid() && Members() == old(Members()) + [Member(key, x)]
      ensures FindMember(Members(), key) == Some(|old(Members())|)
      ensures doc.root == Put(old(doc.root), loc, JObject(old(Members()) + [Member(key, x)]))
    {
      var members := Members();
      PutAt(doc.root, loc, JObject(members + [Member(key, x)]));
      FindMemberAppend(members, Member(key, x), key);
      doc.root := Put(doc.root, loc, JObject(members + [Member(key, x)]));
    }

    /** `SerializeValue(key, ...)` when saving: one member added after the existing ones. */
    method SaveValue(key: string, v: Value)
      requires Valid() && mode == Save && FindMember(Members(), key).None?
      modifies doc
      ensures Valid() && Members() == old(Members()) + [Member(key, EncodeScalar(v))]
      ensures doc.root == Put(old(doc.root), loc, JObject(old(Members()) + [Member(key, EncodeScalar(v))]))
    {
      Store(key, EncodeScalar(v));
    }

    /** `OpenObjectScope(key)`: the member if it is an object, or a new empty object added under the key. */
    method OpenObjectScope(key: string) returns (child: ObjectScope?)
      requires Valid() && (mode == Save ==> FindMember(Members(), key).None?)
      modifies doc
      ensures Valid()
      ensures mode == Load ==>
        (doc.root == old(doc.root)
        && (child != null <==> FindMember(Members(), key).Some? && Members()[FindMember(Members(), key).value].value.JObject?))
      ensures mode == Save ==>
        (child != null && Members() == old(Members()) + [Member(key, JObject([]))]
        && doc.root == Put(old(doc.root), loc, JObject(old(Members()) + [Member(key, JObject([]))])))
      ensures child != null ==>
        (fresh(child) && child.Valid() && child.doc == doc && child.mode == mode
        && FindMember(Members(), key).Some? && child.loc == loc + [Field(FindMember(Members(), key).value)]
        && child.GetPath() == ScopePath(GetPath(), key))
    {
      child := null;
      if mode == Load {
        var found := FindMember(Members(), key);
        if found.Some? && Members()[found.value].value.JObject? {
          AtSnoc(doc.root, loc, Field(found.value));
          child := new ObjectScope(doc, loc + [Field(found.value)], mode, ScopePath(basePath, key));
        }
      } else {
        Store(key, JObject([]));
        var p := |Members()| - 1;
        AtSnoc(doc.root, loc, Field(p));
        child := new ObjectScope(doc, loc + [Field(p)], mode, ScopePath(basePath, key));
      }
    }

    /** `OpenArrayScope(key, arraySize)`: the member if it is an array, or a new empty array with `arraySize` reserved. */
    method OpenArrayScope(key: string, arraySize: nat) returns (child: ArrayScope?)
      requires Valid() && (mode == Save ==> FindMember(Members(), key).None?)
      modifies doc
      ensures Valid()
      ensures mode == Load ==>
        (doc.root == old(doc.root)
        && (child != null <==> FindMember(Members(), key).Some? && Members()[FindMember(Members(), key).value].value.JArray?))
      ensures mode == Save ==>
        (child != null && Members() == old(Members()) + [Member(key, JArray([]))]
        && doc.root == Put(old(doc.root), loc, JObject(old(Members()) + [Member(key, JArray([]))])))
      ensures child != null ==>
        (fresh(child) && child.Valid() && child.doc == doc && child.mode == mode && child.index == 0
        && FindMember(Members(), key).Some? && child.loc == loc + [Field(FindMember(Members(), key).value)]
        && child.basePath == ScopePath(GetPath(), key))
      ensures child != null && mode == Save ==> child.capacity == arraySize
    {
      child := null;
      if mode == Load {
        var found := FindMember(Members(), key);
        if found.Some? {
          var node := Members()[found.value].value;
          if node.JArray? {
            AtSnoc(doc.root, loc, Field(found.value));
            child := new ArrayScope(doc, loc + [Field(found.value)], mode, ScopePath(basePath, key), |node.items|);
          }
        }
      } else {
        Store(key, JArray([]));
        var p := |Members()| - 1;
        AtSnoc(doc.root, loc, Field(p));
        child := new ArrayScope(doc, loc + [Field(p)], mode, ScopePath(basePath, key), arraySize);
      }
    }
  }

  /** `RapidJsonRootScope`: one value, array or object without a key, in the document `mRootJson`. */
  class RootScope {
    const doc: Document
    const mode: SerializeMode

    constructor (doc: Document, mode: SerializeMode)
      ensures this.doc == doc && this.mode == mode
    {
      this.doc := doc;
      this.mode := mode;
    }

    /** `GetPath` of the root: no parent and no key. */
    function GetPath(): string {
      ScopePath("", "")
    }

    /** Loading goes through `LoadValue`, as in the nested scopes, `bool` included. */
    method LoadValue(target: Target) returns (r: LoadResult<Value>)
      requires mode == Load
      ensures r == RapidLoadScalar(doc.root, target)
    {
      r := RapidLoadScalar(doc.root, target);
    }

    /**
     * The `Set*` calls: as the nested scopes write, except that an integral
     * field narrower than 64 bits goes through `SetInt`
     * (`RootEncodeAsWritten`).
     */
    method SaveValue(v: Value, target: Target)
      requires mode == Save && HasType(v, target)
      modifies doc
      ensures doc.root == RootEncodeAsWritten(v, target)
    {
      doc.root := RootEncodeAsWritten(v, target);
    }

    /** `OpenArrayScope`: when saving, `SetArray().Reserve(arraySize)`. */
    method OpenArrayScope(arraySize: nat) returns (child: ArrayScope?)
      modifies doc
      ensures mode == Load ==> doc.root == old(doc.root) && (child != null <==> doc.root.JArray?)
      ensures mode == Save ==> child != null && doc.root == JArray([]) && child.capacity == arraySize
      ensures child != null ==>
        (fresh(child) && child.Valid() && child.doc == doc && child.mode == mode && child.index == 0
        && child.loc == [] && child.basePath == "")
    {
      child := null;
      if mode == Save {
        doc.root := JArray([]);
        child := new ArrayScope(doc, [], mode, GetPath(), arraySize);
      } else if doc.root.JArray? {
        child := new ArrayScope(doc, [], mode, GetPath(), |doc.root.items|);
      }
    }

    /** `OpenObjectScope`: when saving, `SetObject()`. */
    method OpenObjectScope() returns (child: ObjectScope?)
      modifies doc
      ensures mode == Load ==> doc.root == old(doc.root) && (child != null <==> doc.root.JObject?)
      ensures mode == Save ==> child != null && doc.root == JObject([])
      ensures child != null ==>
        (fresh(child) && child.Valid() && child.doc == doc && child.mode == mode && child.loc == [] && child.GetPath() == "")
    {
      if mode == Save {
        doc.root := JObject([]);
      }
      child := null;
      if doc.root.JObject? {
        child := new ObjectScope(doc, [], mode, GetPath());
      }
    }
  }

  // ---------------------------------------------------------------------------
  // Output encoding
  // ---------------------------------------------------------------------------

  /** `Convert::UtfType`: the five encodings, and any other value of the enumeration. */
  datatype UtfType = Utf8 | Utf16le | Utf16be | Utf32le | Utf32be | OtherUtf(code: int)

  /** `rapidjson::UTFType`. */
  datatype RapidUtfType = KUtf8 | KUtf16le | KUtf16be | KUtf32le | KUtf32be

  /** `ToRapidUtfType`: the five encodings map one to one; any other value is UnsupportedEncoding. */
  function ToRapidUtfType(u: UtfType): (r: Result<RapidUtfType, ErrorCode>)
    ensures r.Failure? <==> u.OtherUtf?
    ensures r.Failure? ==> r.error == UnsupportedEncoding
  {
    match u
    case Utf8 => Success(KUtf8)
    case Utf16le => Success(KUtf16le)
    case Utf16be => Success(KUtf16be)
    case Utf32le => Success(KUtf32le)
    case Utf32be => Success(KUtf32be)
    case OtherUtf(_) => Failure(UnsupportedEncoding)
  }

  /** The encoding a RapidJson encoding stands for. */
  function FromRapidUtfType(k: RapidUtfType): UtfType {
    match k
    case KUtf8 => Utf8
    case KUtf16le => Utf16le
    case KUtf16be => Utf16be
    case KUtf32le => Utf32le
    case KUtf32be => Utf32be
  }

  /** The mapping is a bijection between the supported encodings and RapidJson's. */
  lemma ToRapidUtfTypeIsBijective(u: UtfType, k: RapidUtfType)
    ensures ToRapidUtfType(u).Success? ==> FromRapidUtfType(ToRapidUtfType(u).value) == u
    ensures ToRapidUtfType(FromRapidUtfType(k)) == Success(k)
  {
  }
}
