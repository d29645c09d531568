/**
 * The in-memory archive of the test tools (`BinArchiveStub`): a tree of
 * `BinTestIoData` nodes, and the root, array and object scopes that load
 * fields from it and save fields into it.
 *
 * A scope points at a node of a tree the caller owns. Here the tree is the
 * `node` field of an `IoData` object and a scope holds that object and the
 * location of its node in the tree; saving replaces the node at that
 * location, which is what writing through the C++ pointer does.
 */
module StubArchive {
  import opened Wrappers
  import opened Numbers
  import opened Paths

  /** `CBinTimestamp`, carried as an opaque pair of integers. */
  datatype Timestamp = Timestamp(seconds: int, nanoseconds: int)

  /** `BinTestIoData`: one alternative of the variant. */
  datatype Node =
    | NullNode
    | BoolNode(b: bool)
    | Int64Node(i: int)
    | UInt64Node(u: int)
    | DoubleNode(d: Double)
    | StringNode(s: string)
    | TimestampNode(ts: Timestamp)
    | ObjectNode(members: map<string, Node>)
    | ArrayNode(items: seq<Node>)

  // ---------------------------------------------------------------------------
  // Locations in the tree
  // ---------------------------------------------------------------------------

  /** One step down the tree: a member of an object or an item of an array. */
  datatype Step = Key(key: string) | Index(index: nat)

  function Child(n: Node, s: Step): Option<Node> {
    match s
    case Key(k) => if n.ObjectNode? && k in n.members then Some(n.members[k]) else None
    case Index(i) => if n.ArrayNode? && i < |n.items| then Some(n.items[i]) else None
  }

  /** The node at `loc`, if the path exists. */
  function At(n: Node, loc: seq<Step>): Option<Node>
    decreases |loc|
  {
    if loc == [] then Some(n)
    else match Child(n, loc[0])
      case None => None
      case Some(c) => At(c, loc[1..])
  }

  /** `n` with its child at `s` replaced by `c`. */
  function Replace(n: Node, s: Step, c: Node): Node
    requires Child(n, s).Some?
  {
    match s
    case Key(k) => ObjectNode(n.members[k := c])
    case Index(i) => ArrayNode(n.items[i := c])
  }

  /** `n` with the node at `loc` replaced by `x`; `n` itself when the path does not exist. */
  function Put(n: Node, loc: seq<Step>, x: Node): Node
    decreases |loc|
  {
    if loc == [] then x
    else match Child(n, loc[0])
      case None => n
      case Some(c) => Replace(n, loc[0], Put(c, loc[1..], x))
  }

  /** After replacing the node at an existing location, that location holds the new node. */
  lemma {:induction false} PutAt(n: Node, loc: seq<Step>, x: Node)
    requires At(n, loc).Some?
    ensures At(Put(n, loc, x), loc) == Some(x)
    decreases |loc|
  {
    if loc != [] {
      var c := Child(n, loc[0]).value;
      PutAt(c, loc[1..], x);
      assert Child(Put(n, loc, x), loc[0]) == Some(Put(c, loc[1..], x));
    }
  }

  /** Going one step further down. */
  lemma {:induction false} AtSnoc(n: Node, loc: seq<Step>, s: Step)
    ensures At(n, loc + [s]) == (if At(n, loc).Some? then Child(At(n, loc).value, s) else None)
    decreases |loc|
  {
    if loc == [] {
      assert [s][1..] == [];
    } else {
      assert (loc + [s])[1..] == loc[1..] + [s];
      match Child(n, loc[0])
      case None =>
      case Some(c) => AtSnoc(c, loc[1..], s);
    }
  }

  /** Replacing a node below `loc` replaces it inside the node at `loc`. */
  lemma {:induction false} PutBelow(n: Node, loc: seq<Step>, rest: seq<Step>, x: Node)
    requires At(n, loc).Some?
    ensures At(Put(n, loc + rest, x), loc) == Some(Put(At(n, loc).value, rest, x))
    decreases |loc|
  {
    if loc == [] {
      assert loc + rest == rest;
    } else {
      var c := Child(n, loc[0]).value;
      assert (loc + rest)[0] == loc[0] && (loc + rest)[1..] == loc[1..] + rest;
      PutBelow(c, loc[1..], rest, x);
      assert Child(Put(n, loc + rest, x), loc[0]) == Some(Put(c, loc[1..] + rest, x));
    }
  }

  /** Replacing a node strictly inside an array or an object keeps its kind and its size. */
  lemma PutInsideKeepsShape(m: Node, rest: seq<Step>, x: Node)
    requires rest != []
    ensures m.ArrayNode? ==> Put(m, rest, x).ArrayNode? && |Put(m, rest, x).items| == |m.items|
    ensures m.ObjectNode? ==> Put(m, rest, x).ObjectNode? && Put(m, rest, x).members.Keys == m.members.Keys
  {
  }

  /** The object, the array or the value the caller passes to the archive: `BinTestIoData&`. */
  class IoData {
    var node: Node

    constructor (node: Node)
      ensures this.node == node
    {
      this.node := node;
    }
  }

  // ---------------------------------------------------------------------------
  // Loading and saving one node (BinArchiveStubScopeBase)
  // ---------------------------------------------------------------------------

  /** The integer a node of an integral kind holds, `bool` as 0 or 1. */
  function IntegralOf(n: Node): int
    requires n.Int64Node? || n.UInt64Node? || n.BoolNode?
  {
    match n
    case Int64Node(i) => i
    case UInt64Node(u) => u
    case BoolNode(b) => if b then 1 else 0
  }

  /**
   * `LoadFundamentalValue`: a null node loads only into a `nullptr_t` field
   * and never counts as a mismatch; an integral field takes an int64,
   * uint64 or bool node through `SafeNumberCast`; a floating field takes
   * only a double node; every other kind is a mismatch under the policy.
   */
  function LoadFundamentalValue(n: Node, target: Target, options: SerializationOptions): (r: LoadResult<Value>)
    requires !target.StringTarget?
    ensures r.Loaded? ==> HasType(r.v, target)
  {
    if n.NullNode? then
      if target.NullTarget? then Loaded(NullVal) else NotLoaded
    else if (target.IntTarget? || target.BoolTarget?) && (n.Int64Node? || n.UInt64Node? || n.BoolNode?) then
      SafeIntCast(IntegralOf(n), target, options.overflowNumberPolicy)
    else if target.FloatTarget? && n.DoubleNode? then
      Loaded(FloatVal(n.d))
    else
      Mismatched(options.mismatchedTypesPolicy)
  }

  /** `LoadString`: only a string node loads into a string field; the mismatch policy does not apply. */
  function LoadString(n: Node): (r: LoadResult<Value>)
    ensures r.Loaded? <==> n.StringNode?
    ensures r.Loaded? ==> r.v == StrVal(n.s)
    ensures !r.Thrown?
  {
    if n.StringNode? then Loaded(StrVal(n.s)) else NotLoaded
  }

  /** The overload `SerializeValue` picks for a field of type `target` when loading. */
  function LoadField(n: Node, target: Target, options: SerializationOptions): LoadResult<Value> {
    if target.StringTarget? then LoadString(n) else LoadFundamentalValue(n, target, options)
  }

  /**
   * `SaveFundamentalValue` and `SaveString`: `bool` as a bool node, signed
   * integers as int64, unsigned ones as uint64, floating point as double,
   * `nullptr` as null, strings as a string node.
   */
  function SaveNode(v: Value, target: Target): Node
    requires HasType(v, target)
  {
    match v
    case BoolVal(b) => BoolNode(b)
    case IntVal(i) => if target.t.signed then Int64Node(i) else UInt64Node(i)
    case FloatVal(d) => DoubleNode(d)
    case NullVal => NullNode
    case StrVal(s) => StringNode(s)
  }

  /** Saving a field and loading it back into a field of the same type gives the saved value, whatever the options. */
  lemma SaveLoadRoundTrip(v: Value, target: Target, options: SerializationOptions)
    requires HasType(v, target)
    ensures LoadField(SaveNode(v, target), target, options) == Loaded(v)
  {
  }

  /** A null node is never a mismatch: it loads into a `nullptr_t` field and leaves every other field as it is. */
  lemma NullIsNotMismatch(target: Target, options: SerializationOptions)
    requires !target.StringTarget?
    ensures LoadFundamentalValue(NullNode, target, options) == (if target.NullTarget? then Loaded(NullVal) else NotLoaded)
  {
  }

  /** The kinds a fundamental field takes: everything else is a MismatchedTypes error under ThrowError and a skipped field under Skip. */
  predicate Accepts(n: Node, target: Target) {
    n.NullNode?
    || ((target.IntTarget? || target.BoolTarget?) && (n.Int64Node? || n.UInt64Node? || n.BoolNode?))
    || (target.FloatTarget? && n.DoubleNode?)
  }

  lemma MismatchExactlyOnOtherKinds(n: Node, target: Target, options: SerializationOptions)
    requires !target.StringTarget?
    ensures LoadFundamentalValue(n, target, options) == Thrown(MismatchedTypes)
      <==> !Accepts(n, target) && options.mismatchedTypesPolicy == ThrowOnMismatch
    ensures !Accepts(n, target) && options.mismatchedTypesPolicy == SkipMismatch ==>
      LoadFundamentalValue(n, target, options) == NotLoaded
  {
  }

  /** An integer that does not fit a narrower integral field is an Overflow error under ThrowError and a skipped field under Skip. */
  lemma NarrowingOverflow(i: int, t: IntType, options: SerializationOptions)
    requires !InRange(i, t)
    ensures LoadFundamentalValue(Int64Node(i), IntTarget(t), options) == Overflowed(options.overflowNumberPolicy)
    ensures LoadFundamentalValue(UInt64Node(i), IntTarget(t), options) == Overflowed(options.overflowNumberPolicy)
  {
  }

  /** `SerializeValue(CBinTimestamp&)` of the array and the root scope: only a timestamp node loads. */
  function LoadTimestamp(n: Node): (r: LoadResult<Timestamp>)
    ensures r.Loaded? <==> n.TimestampNode?
    ensures !r.Thrown?
  {
    if n.TimestampNode? then Loaded(n.ts) else NotLoaded
  }

  /**
   * `SerializeValue(key, CBinTimestamp&)` of the object scope: a missing key
   * loads nothing, and a present one is read with `std::get` without a kind
   * check, which throws `std::bad_variant_access` for any other kind.
   */
  function LoadTimestampByKey(members: map<string, Node>, key: string): (r: LoadResult<Timestamp>)
    ensures r == NotLoaded <==> key !in members
  {
    if key !in members then NotLoaded
    else if members[key].TimestampNode? then Loaded(members[key].ts)
    else Thrown(BadVariantAccess)
  }

  /** A member of the wrong kind: the object scope throws where the array and the root scope return `false`. */
  lemma TimestampByKeyThrows(members: map<string, Node>, key: string)
    requires key in members && !members[key].TimestampNode?
    ensures LoadTimestampByKey(members, key) == Thrown(BadVariantAccess)
    ensures LoadTimestamp(members[key]) == NotLoaded
  {
  }

  // ---------------------------------------------------------------------------
  // Scopes
  // ---------------------------------------------------------------------------

  /** `BinArchiveStubArrayScope`: the items of an array node, loaded or saved one after another. */
  class ArrayScope {
    const data: IoData
    const loc: seq<Step>
    const mode: SerializeMode
    const options: SerializationOptions
    /** The path of `BinArchiveStubScopeBase::GetPath`, fixed when the scope is opened. */
    const basePath: string
    /** `mIndex`: the items loaded or saved so far. */
    var index: nat

    /** The node is an array; loading has not passed its end; saving has appended exactly `index` items. */
    ghost predicate Valid()
      reads this, data
    {
      var n := At(data.node, loc);
      n.Some? && n.value.ArrayNode?
      && (if mode == Load then index <= |n.value.items| else index == |n.value.items|)
    }

    function Items(): seq<Node>
      reads this, data
      requires Valid()
    {
      At(data.node, loc).value.items
    }

    constructor (data: IoData, loc: seq<Step>, mode: SerializeMode, options: SerializationOptions, basePath: string)
      requires At(data.node, loc).Some? && At(data.node, loc).value.ArrayNode?
      requires mode == Save ==> At(data.node, loc).value.items == []
      ensures Valid() && this.data == data && this.loc == loc && this.mode == mode
      ensures this.options == options && this.basePath == basePath && index == 0
    {
      this.data := data;
      this.loc := loc;
      this.mode := mode;
      this.options := options;
      this.basePath := basePath;
      index := 0;
    }

    /** `GetPath`: the base path and `mIndex`, the count of items already touched. */
    function GetPath(): string
      reads this
    {
      StubIndexPath(basePath, index)
    }

    /** `GetEstimatedSize`: no size hint; unlike the object scope, the array scope answers 0 whatever it holds. */
    method GetEstimatedSize() returns (r: nat)
      requires Valid()
      ensures r == 0
    {
      r := 0;
    }

    /** `IsEnd`: every item has been loaded. */
    method IsEnd() returns (r: bool)
      requires Valid() && mode == Load
      ensures r <==> index == |Items()|
    {
      r := index == |Items()|;
    }

    /** `SerializeValue` of a fundamental or string field when loading: the next item, or OutOfRange past the end. */
    method LoadValue(target: Target) returns (r: LoadResult<Value>)
      requires Valid() && mode == Load
      modifies this
      ensures Valid() && Items() == old(Items())
      ensures old(index) < |Items()| ==> index == old(index) + 1 && r == LoadField(Items()[old(index)], target, options)
      ensures old(index) == |Items()| ==> index == old(index) && r == Thrown(OutOfRange)
    {
      if index < |Items()| {
        r := LoadField(Items()[index], target, options);
        index := index + 1;
      } else {
        r := Thrown(OutOfRange);
      }
    }

    /** Appends one item and leaves the rest of the tree as it is (`emplace_back`). */
    method Append(x: Node)
      requires Valid() && mode == Save
      modifies this, data
      ensures Valid() && index == old(index) + 1
      ensures Items() == old(Items()) + [x]
      ensures data.node == Put(old(data.node), loc, ArrayNode(old(Items()) + [x]))
    {
      var items := Items();
      PutAt(data.node, loc, ArrayNode(items + [x]));
      data.node := Put(data.node, loc, ArrayNode(items + [x]));
      index := index + 1;
    }

    /** `SerializeValue` of a fundamental or string field when saving: exactly one item appended, the earlier ones unchanged. */
    method SaveValue(v: Value, target: Target)
      requires Valid() && mode == Save && HasType(v, target)
      modifies this, data
      ensures Valid() && index == old(index) + 1
      ensures Items() == old(Items()) + [SaveNode(v, target)]
      ensures data.node == Put(old(data.node), loc, ArrayNode(old(Items()) + [SaveNode(v, target)]))
    {
      Append(SaveNode(v, target));
    }

    /** `SerializeValue(CBinTimestamp&)` when loading. */
    method LoadTimestampValue() returns (r: LoadResult<Timestamp>)
      requires Valid() && mode == Load
      modifies this
      ensures Valid() && Items() == old(Items())
      ensures old(index) < |Items()| ==> index == old(index) + 1 && r == LoadTimestamp(Items()[old(index)])
      ensures old(index) == |Items()| ==> index == old(index) && r == Thrown(OutOfRange)
    {
      if index < |Items()| {
        r := LoadTimestamp(Items()[index]);
        index := index + 1;
      } else {
        r := Thrown(OutOfRange);
      }
    }

    /** `SerializeValue(CBinTimestamp&)` when saving. */
    method SaveTimestampValue(ts: Timestamp)
      requires Valid() && mode == Save
      modifies this, data
      ensures Valid() && index == old(index) + 1
      ensures Items() == old(Items()) + [TimestampNode(ts)]
      ensures data.node == Put(old(data.node), loc, ArrayNode(old(Items()) + [TimestampNode(ts)]))
    {
      Append(TimestampNode(ts));
    }

    /**
     * `OpenObjectScope`: when loading, the next item as an object scope if it
     * is an object (OutOfRange past the end); when saving, a new empty
     * object appended. The new scope has no key, so its path is this
     * scope's path after the step.
     */
    method OpenObjectScope() returns (child: ObjectScope?, thrown: Option<ErrorCode>)
      requires Valid()
      modifies this, data
      ensures Valid()
      ensures mode == Load ==> data.node == old(data.node)
      ensures mode == Load && old(index) < |Items()| ==>
        index == old(index) + 1 && thrown == None && (child != null <==> Items()[old(index)].ObjectNode?)
      ensures mode == Load && old(index) == |Items()| ==> index == old(index) && thrown == Some(OutOfRange) && child == null
      ensures mode == Save ==> (thrown == None && child != null && index == old(index) + 1
        && Items() == old(Items()) + [ObjectNode(map[])]
        && data.node == Put(old(data.node), loc, ArrayNode(old(Items()) + [ObjectNode(map[])])))
      ensures child != null ==> (fresh(child) && child.Valid() && child.data == data && child.mode == mode
        && child.options == options && child.loc == loc + [Index(old(index))] && child.basePath == ScopePath(GetPath(), ""))
    {
      var i := index;
      if mode == Load {
        if index < |Items()| {
          var item := Items()[index];
          index := index + 1;
          thrown := None;
          if item.ObjectNode? {
            AtSnoc(data.node, loc, Index(i));
            child := new ObjectScope(data, loc + [Index(i)], mode, options, ScopePath(GetPath(), ""));
          } else {
            child := null;
          }
        } else {
          thrown := Some(OutOfRange);
          child := null;
        }
      } else {
        Append(ObjectNode(map[]));
        AtSnoc(data.node, loc, Index(i));
        thrown := None;
        child := new ObjectScope(data, loc + [Index(i)], mode, options, ScopePath(GetPath(), ""));
      }
    }

    /** `OpenArrayScope`: as `OpenObjectScope`, for an array item; saving appends an empty array (`arraySize` only reserves). */
    method OpenArrayScope(arraySize: nat) returns (child: ArrayScope?, thrown: Option<ErrorCode>)
      requires Valid()
      modifies this, data
      ensures Valid()
      ensures mode == Load ==> data.node == old(data.node)
      ensures mode == Load && old(index) < |Items()| ==>
        index == old(index) + 1 && thrown == None && (child != null <==> Items()[old(index)].ArrayNode?)
      ensures mode == Load && old(index) == |Items()| ==> index == old(index) && thrown == Some(OutOfRange) && child == null
      ensures mode == Save ==> (thrown == None && child != null && index == old(index) + 1
        && Items() == old(Items()) + [ArrayNode([])]
        && data.node == Put(old(data.node), loc, ArrayNode(old(Items()) + [ArrayNode([])])))
      ensures child != null ==> (fresh(child) && child.Valid() && child.data == data && child.mode == mode && child.index == 0
        && child.options == options && child.loc == loc + [Index(old(index))] && child.basePath == ScopePath(GetPath(), ""))
    {
      var i := index;
      if mode == Load {
        if index < |Items()| {
          var item := Items()[index];
          index := index + 1;
          thrown := None;
          if item.ArrayNode? {
            AtSnoc(data.node, loc, Index(i));
            child := new ArrayScope(data, loc + [Index(i)], mode, options, ScopePath(GetPath(), ""));
          } else {
            child := null;
          }
        } else {
          thrown := Some(OutOfRange);
          child := null;
        }
      } else {
        Append(ArrayNode([]));
        AtSnoc(data.node, loc, Index(i));
        thrown := None;
        child := new ArrayScope(data, loc + [Index(i)], mode, options, ScopePath(GetPath(), ""));
      }
    }
  }

  /** `BinArchiveStubObjectScope`: the members of an object node, loaded and saved by key. */
  class ObjectScope {
    const data: IoData
    const loc: seq<Step>
    const mode: SerializeMode
    const options: SerializationOptions
    const basePath: string

    ghost predicate Valid()
      reads data
    {
      At(data.node, loc).Some? && At(data.node, loc).value.ObjectNode?
    }

    function Members(): map<string, Node>
      reads data
      requires Valid()
    {
      At(data.node, loc).value.members
    }

    constructor (data: IoData, loc: seq<Step>, mode: SerializeMode, options: SerializationOptions, basePath: string)
      requires At(data.node, loc).Some? && At(data.node, loc).value.ObjectNode?
      ensures Valid() && this.data == data && this.loc == loc && this.mode == mode
      ensures this.options == options && this.basePath == basePath
    {
      this.data := data;
      this.loc := loc;
      this.mode := mode;
      this.options := options;
      this.basePath := basePath;
    }

    /** `GetPath`: the parent's path and the key this scope was opened under. */
    function GetPath(): string {
      basePath
    }

    /** `GetEstimatedSize`: the number of members. */
    method GetEstimatedSize() returns (r: nat)
      requires Valid()
      ensures r == |Members()|
    {
      r := |Members().Keys|;
    }

    /** `VisitKeys`: every key, each once. The visiting order (`std::map`'s) is not modelled. */
    method VisitKeys() returns (keys: seq<string>)
      requires Valid()
      ensures forall k :: k in keys <==> k in Members()
      ensures forall i, j :: 0 <= i < j < |keys| ==> keys[i] != keys[j]
    {
      var rest := Members().Keys;
      keys := [];
      while rest != {}
        invariant forall k :: k in Members() <==> k in rest || k in keys
        invariant forall k :: k in keys ==> k !in rest
        invariant forall i, j :: 0 <= i < j < |keys| ==> keys[i] != keys[j]
        decreases |rest|
      {
        var k :| k in rest;
        keys := keys + [k];
        rest := rest - {k};
      }
    }

    /** `SerializeValue(key, ...)` of a fundamental or string field when loading: a missing key loads nothing. */
    method LoadValue(key: string, target: Target) returns (r: LoadResult<Value>)
      requires Valid() && mode == Load
      ensures key !in Members() ==> r == NotLoaded
      ensures key in Members() ==> r == LoadField(Members()[key], target, options)
    {
      var members := Members();
      if key in members {
        r := LoadField(members[key], target, options);
      } else {
        r := NotLoaded;
      }
    }

    /** Stores `x` under `key` (`emplace` then assigning into the node): a member already under `key` is overwritten. */
    method Store(key: string, x: Node)
      requires Valid() && mode == Save
      modifies data
      ensures Valid() && Members() == old(Members())[key := x]
      ensures data.node == Put(old(data.node), loc, ObjectNode(old(Members())[key := x]))
    {
      var members := Members();
      PutAt(data.node, loc, ObjectNode(members[key := x]));
      data.node := Put(data.node, loc, ObjectNode(members[key := x]));
    }

    /** `SerializeValue(key, ...)` when saving: the key maps to the new node and every other key keeps its node. */
    method SaveValue(key: string, v: Value, target: Target)
      requires Valid() && mode == Save && HasType(v, target)
      modifies data
      ensures Valid() && Members() == old(Members())[key := SaveNode(v, target)]
      ensures data.node == Put(old(data.node), loc, ObjectNode(old(Members())[key := SaveNode(v, target)]))
    {
      Store(key, SaveNode(v, target));
    }

    /** `SerializeValue(key, CBinTimestamp&)` when loading. */
    method LoadTimestampValue(key: string) returns (r: LoadResult<Timestamp>)
      requires Valid() && mode == Load
      ensures r == LoadTimestampByKey(Members(), key)
    {
      r := LoadTimestampByKey(Members(), key);
    }

    /** `SerializeValue(key, CBinTimestamp&)` when saving. */
    method SaveTimestampValue(key: string, ts: Timestamp)
      requires Valid() && mode == Save
      modifies data
      ensures Valid() && Members() == old(Members())[key := TimestampNode(ts)]
      ensures data.node == Put(old(data.node), loc, ObjectNode(old(Members())[key := TimestampNode(ts)]))
    {
      Store(key, TimestampNode(ts));
    }

    /** `OpenObjectScope(key)`: when loading, none unless the key holds an object; when saving, a new empty object under the key. */
    method OpenObjectScope(key: string) returns (child: ObjectScope?)
      requires Valid()
      modifies data
      ensures Valid()
      ensures mode == Load ==> (data.node == old(data.node)
        && (child != null <==> key in Members() && Members()[key].ObjectNode?))
      ensures mode == Save ==> (child != null && Members() == old(Members())[key := ObjectNode(map[])]
        && data.node == Put(old(data.node), loc, ObjectNode(old(Members())[key := ObjectNode(map[])])))
      ensures child != null ==> (fresh(child) && child.Valid() && child.data == data && child.mode == mode
        && child.options == options && child.loc == loc + [Key(key)] && child.GetPath() == ScopePath(GetPath(), key))
    {
      if mode == Load {
        var members := Members();
        if key in members && members[key].ObjectNode? {
          AtSnoc(data.node, loc, Key(key));
          child := new ObjectScope(data, loc + [Key(key)], mode, options, ScopePath(basePath, key));
        } else {
          child := null;
        }
      } else {
        Store(key, ObjectNode(map[]));
        AtSnoc(data.node, loc, Key(key));
        child := new ObjectScope(data, loc + [Key(key)], mode, options, ScopePath(basePath, key));
      }
    }

    /** `OpenArrayScope(key, arraySize)`: as `OpenObjectScope`, for an array; saving stores an empty array. */
    method OpenArrayScope(key: string, arraySize: nat) returns (child: ArrayScope?)
      requires Valid()
      modifies data
      ensures Valid()
      ensures mode == Load ==> (data.node == old(data.node)
        && (child != null <==> key in Members() && Members()[key].ArrayNode?))
      ensures mode == Save ==> (child != null && Members() == old(Members())[key := ArrayNode([])]
        && data.node == Put(old(data.node), loc, ObjectNode(old(Members())[key := ArrayNode([])])))
      ensures child != null ==> (fresh(child) && child.Valid() && child.data == data && child.mode == mode && child.index == 0
        && child.options == options && child.loc == loc + [Key(key)] && child.basePath == ScopePath(GetPath(), key))
    {
      if mode == Load {
        var members := Members();
        if key in members && members[key].ArrayNode? {
          AtSnoc(data.node, loc, Key(key));
          child := new ArrayScope(data, loc + [Key(key)], mode, options, ScopePath(basePath, key));
        } else {
          child := null;
        }
      } else {
        Store(key, ArrayNode([]));
        AtSnoc(data.node, loc, Key(key));
        child := new ArrayScope(data, loc + [Key(key)], mode, options, ScopePath(basePath, key));
      }
    }
  }

  /** `BinArchiveStubRootScope`: one value, array or object without a key, read from or written into the caller's node. */
  class RootScope {
    const data: IoData
    const mode: SerializeMode
    const options: SerializationOptions

    constructor (data: IoData, mode: SerializeMode, options: SerializationOptions)
      ensures this.data == data && this.mode == mode && this.options == options
    {
      this.data := data;
      this.mode := mode;
      this.options := options;
    }

    /** `GetPath` of the root: no parent and no key. */
    function GetPath(): string {
      ScopePath("", "")
    }

    method LoadValue(target: Target) returns (r: LoadResult<Value>)
      requires mode == Load
      ensures r == LoadField(data.node, target, options)
    {
      r := LoadField(data.node, target, options);
    }

    /** Saving replaces the whole output node. */
    method SaveValue(v: Value, target: Target)
      requires mode == Save && HasType(v, target)
      modifies data
      ensures data.node == SaveNode(v, target)
    {
      data.node := SaveNode(v, target);
    }

    method LoadTimestampValue() returns (r: LoadResult<Timestamp>)
      requires mode == Load
      ensures r == LoadTimestamp(data.node)
    {
      r := LoadTimestamp(data.node);
    }

    method SaveTimestampValue(ts: Timestamp)
      requires mode == Save
      modifies data
      ensures data.node == TimestampNode(ts)
    {
      data.node := TimestampNode(ts);
    }

    /** `OpenObjectScope`: when loading, none unless the node is an object; when saving, the node becomes an empty object. */
    method OpenObjectScope() returns (child: ObjectScope?)
      modifies data
      ensures mode == Load ==> data.node == old(data.node) && (child != null <==> data.node.ObjectNode?)
      ensures mode == Save ==> child != null && data.node == ObjectNode(map[])
      ensures child != null ==> (fresh(child) && child.Valid() && child.data == data && child.mode == mode
        && child.options == options && child.loc == [] && child.GetPath() == "")
    {
      if mode == Save {
        data.node := ObjectNode(map[]);
      }
      if data.node.ObjectNode? {
        child := new ObjectScope(data, [], mode, options, GetPath());
      } else {
        child := null;
      }
    }

    /** `OpenArrayScope`: when loading, none unless the node is an array; when saving, the node becomes an empty array. */
    method OpenArrayScope(arraySize: nat) returns (child: ArrayScope?)
      modifies data
      ensures mode == Load ==> data.node == old(data.node) && (child != null <==> data.node.ArrayNode?)
      ensures mode == Save ==> child != null && data.node == ArrayNode([])
      ensures child != null ==> (fresh(child) && child.Valid() && child.data == data && child.mode == mode && child.index == 0
        && child.options == options && child.loc == [] && child.basePath == "")
    {
      if mode == Save {
        data.node := ArrayNode([]);
      }
      if data.node.ArrayNode? && (mode == Load || data.node.items == []) {
        child := new ArrayScope(data, [], mode, options, GetPath());
      } else {
        child := null;
      }
    }
  }
}
