/**
 * The JSON document the three JSON archives work on (a `web::json::value`
 * of the C++ REST SDK, a `rapidjson::GenericValue`), the locations of its
 * nodes, and the conversions between a field's value and a JSON node: the
 * one the C++ REST SDK archive reads with, and the one RapidJson's
 * asserting getters give the two RapidJson archives.
 *
 * Objects keep their members in a sequence, in the order the library
 * holds them; a key is looked up by the first member carrying it.
 */
module JsonTree {
  import opened Wrappers
  import opened Numbers

  /** A JSON number as the libraries store it: an integer or a double. */
  datatype Number = IntNum(i: int) | RealNum(d: Double)

  datatype Json =
    | JNull
    | JBool(b: bool)
    | JNumber(n: Number)
    | JString(s: string)
    | JArray(items: seq<Json>)
    | JObject(members: seq<Member>)

  datatype Member = Member(name: string, value: Json)

  // ---------------------------------------------------------------------------
  // Members by name
  // ---------------------------------------------------------------------------

  /** The position of the first member named `key` (`find_if`, `FindMember`). */
  function FindMember(members: seq<Member>, key: string): (r: Option<nat>)
    ensures r.Some? ==> r.value < |members| && members[r.value].name == key
    ensures r.Some? ==> forall j :: 0 <= j < r.value ==> members[j].name != key
    ensures r.None? <==> forall j :: 0 <= j < |members| ==> members[j].name != key
    decreases |members|
  {
    if members == [] then None
    else if members[0].name == key then Some(0)
    else match FindMember(members[1..], key)
      case None => None
      case Some(j) => Some(j + 1)
  }

  /** A member appended under a new name is found at the end, and every other name is found where it was. */
  lemma {:induction false} FindMemberAppend(members: seq<Member>, m: Member, key: string)
    requires FindMember(members, m.name).None?
    ensures FindMember(members + [m], key) ==
      (if key == m.name then Some(|members|) else FindMember(members, key))
  {
    var all := members + [m];
    assert forall j :: 0 <= j < |members| ==> all[j] == members[j];
    if key == m.name {
      assert all[|members|].name == key;
    } else {
      assert forall j :: 0 <= j < |all| && all[j].name == key ==> j < |members|;
    }
  }

  /** The names of the members, in order: what the key iterators of an object scope visit. */
  function Names(members: seq<Member>): (r: seq<string>)
    ensures |r| == |members|
    ensures forall i :: 0 <= i < |r| ==> r[i] == members[i].name
    decreases |members|
  {
    if members == [] then [] else [members[0].name] + Names(members[1..])
  }

  // ---------------------------------------------------------------------------
  // Locations in the document
  // ---------------------------------------------------------------------------

  /** One step down the document: the value of the member at a position, or the item at a position. */
  datatype Step = Field(pos: nat) | Item(pos: nat)

  function Child(j: Json, s: Step): Option<Json> {
    match s
    case Field(p) => if j.JObject? && p < |j.members| then Some(j.members[p].value) else None
    case Item(p) => if j.JArray? && p < |j.items| then Some(j.items[p]) else None
  }

  /** The node at `loc`, if the path exists. */
  function At(j: Json, loc: seq<Step>): Option<Json>
    decreases |loc|
  {
    if loc == [] then Some(j)
    else match Child(j, loc[0])
      case None => None
      case Some(c) => At(c, loc[1..])
  }

  /** `j` with its child at `s` replaced by `c`. */
  function Replace(j: Json, s: Step, c: Json): Json
    requires Child(j, s).Some?
  {
    match s
    case Field(p) => JObject(j.members[p := Member(j.members[p].name, c)])
    case Item(p) => JArray(j.items[p := c])
  }

  /** `j` with the node at `loc` replaced by `x`; `j` itself when the path does not exist. */
  function Put(j: Json, loc: seq<Step>, x: Json): Json
    decreases |loc|
  {
    if loc == [] then x
    else match Child(j, loc[0])
      case None => j
      case Some(c) => Replace(j, loc[0], Put(c, loc[1..], x))
  }

  /** After replacing the node at an existing location, that location holds the new node. */
  lemma {:induction false} PutAt(j: Json, loc: seq<Step>, x: Json)
    requires At(j, loc).Some?
    ensures At(Put(j, loc, x), loc) == Some(x)
    decreases |loc|
  {
    if loc != [] {
      var c := Child(j, loc[0]).value;
      PutAt(c, loc[1..], x);
      assert Child(Put(j, loc, x), loc[0]) == Some(Put(c, loc[1..], x));
    }
  }

  /** Of two replacements at the same existing location, the later one wins. */
  lemma {:induction false} PutTwice(j: Json, loc: seq<Step>, x: Json, y: Json)
    requires At(j, loc).Some?
    ensures Put(Put(j, loc, x), loc, y) == Put(j, loc, y)
    decreases |loc|
  {
    if loc != [] {
      var c := Child(j, loc[0]).value;
      PutTwice(c, loc[1..], x, y);
      assert Child(Put(j, loc, x), loc[0]) == Some(Put(c, loc[1..], x));
    }
  }

  /** Putting back the node a location already holds changes nothing. */
  lemma {:induction false} PutSame(j: Json, loc: seq<Step>)
    requires At(j, loc).Some?
    ensures Put(j, loc, At(j, loc).value) == j
    decreases |loc|
  {
    if loc != [] {
      var c := Child(j, loc[0]).value;
      PutSame(c, loc[1..]);
      match loc[0]
      case Field(p) => assert j.members[p := Member(j.members[p].name, c)] == j.members;
      case Item(p) => assert j.items[p := c] == j.items;
    }
  }

  /** Going one step further down. */
  lemma {:induction false} AtSnoc(j: Json, loc: seq<Step>, s: Step)
    ensures At(j, loc + [s]) == (if At(j, loc).Some? then Child(At(j, loc).value, s) else None)
    decreases |loc|
  {
    if loc == [] {
      assert [s][1..] == [];
    } else {
      assert (loc + [s])[1..] == loc[1..] + [s];
      match Child(j, loc[0])
      case None =>
      case Some(c) => AtSnoc(c, loc[1..], s);
    }
  }

  /** Replacing a node below `loc` replaces it inside the node at `loc`. */
  lemma {:induction false} PutBelow(j: Json, loc: seq<Step>, rest: seq<Step>, x: Json)
    requires At(j, loc).Some?
    ensures At(Put(j, loc + rest, x), loc) == Some(Put(At(j, loc).value, rest, x))
    decreases |loc|
  {
    if loc == [] {
      assert loc + rest == rest;
    } else {
      var c := Child(j, loc[0]).value;
      assert (loc + rest)[0] == loc[0] && (loc + rest)[1..] == loc[1..] + rest;
      PutBelow(c, loc[1..], rest, x);
      assert Child(Put(j, loc + rest, x), loc[0]) == Some(Put(c, loc[1..] + rest, x));
    }
  }

  /** Replacing a node strictly inside an object keeps the object's member names, in order. */
  lemma PutInsideObject(m: Json, rest: seq<Step>, x: Json)
    requires m.JObject? && rest != []
    ensures Put(m, rest, x).JObject? && Names(Put(m, rest, x).members) == Names(m.members)
  {
    var r := Put(m, rest, x);
    if Child(m, rest[0]).Some? {
      assert Names(r.members) == Names(m.members);
    }
  }

  /** The document a root scope reads or writes (`mRootJson`). */
  class Document {
    var root: Json

    constructor (root: Json)
      ensures this.root == root
    {
      this.root := root;
    }
  }

  // ---------------------------------------------------------------------------
  // Fields to and from nodes
  // ---------------------------------------------------------------------------

  /** The mathematical value a number holds, doubles truncated toward zero. */
  function NumberValue(n: Number): int {
    if n.IntNum? then n.i else Truncate(n.d)
  }

  /**
   * The integer an integral field receives from a number in the C++ REST
   * SDK: `int64_t` and `uint64_t` fields read the number at 64 bits
   * (`to_int64`, `to_uint64`), every other integral type reads it as an
   * `int` and then converts (`static_cast<T>(as_integer())`); a double is
   * truncated first.
   */
  function NumberAsInt(n: Number, t: IntType): (r: int)
    ensures InRange(r, t)
  {
    if t.bits == 64 then Wrap(NumberValue(n), t) else Wrap(Wrap(NumberValue(n), Int32), t)
  }

  /** The double a floating field receives from a number (`as_double`, `GetDouble`). */
  function NumberAsDouble(n: Number): Double {
    if n.IntNum? then FromInt(n.i) else n.d
  }

  /** The node kinds a field of type `target` loads from in the C++ REST SDK and the RapidJson archive. */
  predicate Accepts(j: Json, target: Target) {
    match target
    case BoolTarget => j.JNumber? || j.JBool?
    case IntTarget(_) => j.JNumber? || j.JBool?
    case FloatTarget => j.JNumber?
    case NullTarget => j.JNull?
    case StringTarget => j.JString?
  }

  /**
   * `LoadFundamentalValue`/`LoadString` of the C++ REST SDK archive: an
   * integral field, `bool` included, takes a number or a boolean; a
   * floating field a number; `nullptr` a null; a string a string. A node
   * of another kind leaves the field as it is; there is no mismatch or
   * overflow policy, and a number too wide for the field, or a double for
   * an integral field, is converted, not refused.
   */
  function LoadScalar(j: Json, target: Target): (r: LoadResult<Value>)
    ensures r.Loaded? <==> Accepts(j, target)
    ensures r.Loaded? ==> HasType(r.v, target)
    ensures !r.Thrown?
  {
    match target
    case BoolTarget =>
      if j.JNumber? then Loaded(BoolVal(Wrap(NumberValue(j.n), Int32) != 0))
      else if j.JBool? then Loaded(BoolVal(j.b))
      else NotLoaded
    case IntTarget(t) =>
      if j.JNumber? then Loaded(IntVal(NumberAsInt(j.n, t)))
      else if j.JBool? then Loaded(IntVal(Wrap(if j.b then 1 else 0, t)))
      else NotLoaded
    case FloatTarget =>
      if j.JNumber? then Loaded(FloatVal(NumberAsDouble(j.n))) else NotLoaded
    case NullTarget =>
      if j.JNull? then Loaded(NullVal) else NotLoaded
    case StringTarget =>
      if j.JString? then Loaded(StrVal(j.s)) else NotLoaded
  }

  /** The node a saved field becomes: `bool` a boolean, any other arithmetic type a number, `nullptr` a null. */
  function EncodeScalar(v: Value): Json {
    match v
    case BoolVal(b) => JBool(b)
    case IntVal(i) => JNumber(IntNum(i))
    case FloatVal(d) => JNumber(RealNum(d))
    case NullVal => JNull
    case StrVal(s) => JString(s)
  }

  /** A value saved into a node loads back unchanged into a field of the same type. */
  lemma ScalarRoundTrip(v: Value, target: Target)
    requires ValidTarget(target) && HasType(v, target)
    ensures LoadScalar(EncodeScalar(v), target) == Loaded(v)
  {
    if target.IntTarget? && target.t.bits != 64 {
      WrapThroughInt32(v.i, target.t);
    }
  }

  /** Loading a field of an object by key: a missing key leaves the field as it is. */
  function LoadMember(members: seq<Member>, key: string, target: Target): (r: LoadResult<Value>)
    ensures FindMember(members, key).None? ==> r == NotLoaded
    ensures FindMember(members, key).Some? ==> r == LoadScalar(members[FindMember(members, key).value].value, target)
  {
    match FindMember(members, key)
    case None => NotLoaded
    case Some(p) => LoadScalar(members[p].value, target)
  }

  /** A field saved under a new key loads back unchanged, and every other key loads as before. */
  lemma SavedMemberLoads(members: seq<Member>, key: string, v: Value, target: Target, other: string)
    requires FindMember(members, key).None?
    requires ValidTarget(target) && HasType(v, target)
    ensures LoadMember(members + [Member(key, EncodeScalar(v))], key, target) == Loaded(v)
    ensures other != key ==>
      LoadMember(members + [Member(key, EncodeScalar(v))], other, target) == LoadMember(members, other, target)
  {
    var m := Member(key, EncodeScalar(v));
    FindMemberAppend(members, m, key);
    FindMemberAppend(members, m, other);
    ScalarRoundTrip(v, target);
  }

  // ---------------------------------------------------------------------------
  // RapidJson's getters
  // ---------------------------------------------------------------------------

  /**
   * Whether RapidJson keeps the number as an integer of type `t`. RapidJson
   * records with each number the types it fits: an integer that fits `int`
   * carries `kIntFlag`, one that fits `int64_t` `kInt64Flag`, one that fits
   * `uint64_t` `kUint64Flag`; a number parsed or set as a double carries
   * only `kDoubleFlag`. The flags follow from the value, whichever call
   * stored it.
   */
  predicate RapidHolds(n: Number, t: IntType) {
    n.IntNum? && InRange(n.i, t)
  }

  /**
   * The type of the getter an integral field reads with: `GetInt64` for
   * `int64_t`, `GetUint64` for `uint64_t`, `GetInt` for every other
   * integral type, `bool` included. Each getter asserts that the number
   * holds its type.
   */
  function GetterType(t: IntType): (r: IntType)
    ensures r.bits >= t.bits || r == Int32
    ensures t.bits == 64 ==> r == t
  {
    if t.bits == 64 then t else Int32
  }

  /**
   * `LoadValue` of the RapidJson archive: the node kinds are those of the
   * C++ REST SDK archive, but an integral or `bool` field reads a number
   * through a getter whose assertion fails unless the number holds the
   * getter's type; it does not truncate a double. `GetDouble` takes any
   * number.
   */
  function RapidLoadScalar(j: Json, target: Target): (r: LoadResult<Value>)
    ensures r.AssertionFailed? <==>
      (j.JNumber? && ((target.BoolTarget? && !RapidHolds(j.n, Int32))
        || (target.IntTarget? && !RapidHolds(j.n, GetterType(target.t)))))
    ensures !r.AssertionFailed? ==> r == LoadScalar(j, target)
    ensures r.Loaded? ==> HasType(r.v, target)
  {
    match target
    case BoolTarget =>
      if j.JNumber? then
        if RapidHolds(j.n, Int32) then Loaded(BoolVal(j.n.i != 0)) else AssertionFailed
      else LoadScalar(j, target)
    case IntTarget(t) =>
      if j.JNumber? then
        if RapidHolds(j.n, GetterType(t)) then Loaded(IntVal(Wrap(j.n.i, t))) else AssertionFailed
      else LoadScalar(j, target)
    case _ => LoadScalar(j, target)
  }

  /**
   * The saved values RapidJson's getters refuse: an `unsigned int` above
   * 2^31 - 1 is stored without `kIntFlag`, and every integral type but the
   * two 64-bit ones is read back through `GetInt`.
   */
  predicate GetIntRefuses(v: Value, target: Target) {
    target.IntTarget? && v.IntVal? && !InRange(v.i, GetterType(target.t))
  }

  /** Only an unsigned 32-bit field can hold a value `GetInt` refuses. */
  lemma GetIntRefusesOnlyUnsigned32(v: Value, target: Target)
    requires ValidTarget(target) && HasType(v, target) && GetIntRefuses(v, target)
    ensures target.t == IntType(false, 32) && Pow2(31) <= v.i < Pow2(32)
  {
    Int32Range();
    assert Pow2(7) == 128 && Pow2(8) == 256;
    Pow2Add(7, 8);
    Pow2Add(8, 8);
    assert Pow2(32) == 2 * Pow2(31);
  }

  /**
   * A value saved into an item or member loads back unchanged into a
   * field of the same type, unless `GetInt` refuses it, in which case its
   * assertion fails.
   */
  lemma RapidScalarRoundTrip(v: Value, target: Target)
    requires ValidTarget(target) && HasType(v, target)
    ensures !GetIntRefuses(v, target) ==> RapidLoadScalar(EncodeScalar(v), target) == Loaded(v)
    ensures GetIntRefuses(v, target) ==> RapidLoadScalar(EncodeScalar(v), target) == AssertionFailed
  {
    if !GetIntRefuses(v, target) {
      ScalarRoundTrip(v, target);
    }
  }

  /** An `unsigned int` of 2^31 saved into an array does not load back: `GetInt` fails its assertion. */
  lemma LargeUnsignedItemAsserts()
    ensures RapidLoadScalar(EncodeScalar(IntVal(0x8000_0000)), IntTarget(IntType(false, 32))) == AssertionFailed
  {
    Int32Range();
  }

  /** Loading a field of an object by key in the RapidJson archive: a missing key leaves the field as it is. */
  function RapidLoadMember(members: seq<Member>, key: string, target: Target): (r: LoadResult<Value>)
    ensures FindMember(members, key).None? ==> r == NotLoaded
    ensures FindMember(members, key).Some? ==> r == RapidLoadScalar(members[FindMember(members, key).value].value, target)
  {
    match FindMember(members, key)
    case None => NotLoaded
    case Some(p) => RapidLoadScalar(members[p].value, target)
  }

  /**
   * A field saved under a new key loads back unchanged unless `GetInt`
   * refuses it, and every other key loads as before.
   */
  lemma RapidSavedMemberLoads(members: seq<Member>, key: string, v: Value, target: Target, other: string)
    requires FindMember(members, key).None?
    requires ValidTarget(target) && HasType(v, target)
    ensures !GetIntRefuses(v, target) ==>
      RapidLoadMember(members + [Member(key, EncodeScalar(v))], key, target) == Loaded(v)
    ensures other != key ==>
      RapidLoadMember(members + [Member(key, EncodeScalar(v))], other, target) == RapidLoadMember(members, other, target)
  {
    var m := Member(key, EncodeScalar(v));
    FindMemberAppend(members, m, key);
    FindMemberAppend(members, m, other);
    RapidScalarRoundTrip(v, target);
  }

  /**
   * The node the RapidJson root scopes write for a field, as written:
   * `SetInt64`/`SetUint64` for the 64-bit types, `SetDouble`, `SetBool`,
   * `SetNull`, `SetString`, and `SetInt(value)` for every other integral
   * type, which converts an `unsigned int` to `int` first.
   */
  function RootEncodeAsWritten(v: Value, target: Target): Json
    requires HasType(v, target)
  {
    if v.IntVal? && target.t.bits != 64 then JNumber(IntNum(Wrap(v.i, Int32))) else EncodeScalar(v)
  }

  /** Saved by the root as written, an `unsigned int` of 2^32 - 1 becomes the number -1 in the document. */
  lemma RootSavesLargeUnsignedAsNegative()
    ensures InRange(0xFFFF_FFFF, IntType(false, 32))
    ensures RootEncodeAsWritten(IntVal(0xFFFF_FFFF), IntTarget(IntType(false, 32))) == JNumber(IntNum(-1))
    ensures EncodeScalar(IntVal(0xFFFF_FFFF)) == JNumber(IntNum(0xFFFF_FFFF))
  {
    Int32Range();
    assert Pow2(32) == 0x1_0000_0000;
    var u32 := IntType(false, 32);
    assert InRange(0xFFFF_FFFF, u32);
    WrapOfMod(0xFFFF_FFFF, -1, Int32);
    WrapInt32Small(-1);
  }

  /**
   * The archive itself reads such a number back correctly, through
   * `GetInt` and a conversion, so only another reader of the document sees
   * the wrong value.
   */
  lemma RootEncodeAsWrittenRoundTrip(v: Value, target: Target)
    requires ValidTarget(target) && HasType(v, target)
    ensures RapidLoadScalar(RootEncodeAsWritten(v, target), target) == Loaded(v)
  {
    if v.IntVal? && target.t.bits != 64 {
      var w := Wrap(v.i, Int32);
      assert RapidHolds(JNumber(IntNum(w)).n, Int32);
      WrapThroughInt32(v.i, target.t);
    } else {
      RapidScalarRoundTrip(v, target);
    }
  }

  /** A number too wide for a narrow field wraps around in both archives: 300 loads into a `uint8_t` as 44. */
  lemma NarrowingWraps()
    ensures LoadScalar(JNumber(IntNum(300)), IntTarget(IntType(false, 8))) == Loaded(IntVal(44))
    ensures RapidLoadScalar(JNumber(IntNum(300)), IntTarget(IntType(false, 8))) == Loaded(IntVal(44))
  {
    WrapInt32Small(300);
    var u8 := IntType(false, 8);
    assert Pow2(8) == 256;
    WrapOfMod(300, 44, u8);
  }

  /**
   * A `bool` field reads a number through `int`. In the C++ REST SDK 2^32
   * loads as `false`; RapidJson does not store 2^32 as an `int`, so
   * `GetInt` fails its assertion.
   */
  lemma LargeNumberLoadsAsFalse()
    ensures LoadScalar(JNumber(IntNum(0x1_0000_0000)), BoolTarget) == Loaded(BoolVal(false))
    ensures RapidLoadScalar(JNumber(IntNum(0x1_0000_0000)), BoolTarget) == AssertionFailed
  {
    Int32Range();
    assert Pow2(32) == 0x1_0000_0000;
    WrapOfMod(0x1_0000_0000, 0, Int32);
    WrapInt32Small(0);
  }

  /** A double is truncated by the C++ REST SDK and refused by RapidJson's `GetInt`: 1.5 loads into an `int` as 1, or fails the assertion. */
  lemma DoubleIntoInt(d: Double)
    requires Truncate(d) == 1
    ensures LoadScalar(JNumber(RealNum(d)), IntTarget(Int32)) == Loaded(IntVal(1))
    ensures RapidLoadScalar(JNumber(RealNum(d)), IntTarget(Int32)) == AssertionFailed
  {
    Int32Range();
    WrapInt32Small(1);
  }
}
