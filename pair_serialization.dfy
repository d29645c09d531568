/**
 * `std::pair` serialization (`serialization_stl_types.h`): a pair is an
 * object with two members, `"key"` holding `first` and `"value"` holding
 * `second`, written in that order. The pair is serialized through the
 * object scope the archive opens for it, modelled over the legacy
 * RapidJson archive whose keys are wide strings, like the `L"key"` and
 * `L"value"` literals.
 */
module PairSerialization {
  import opened Wrappers
  import opened Numbers
  import opened JsonTree
  import opened LegacyRapidJsonArchive

  const KeyName: string := "key"
  const ValueName: string := "value"

  /** A `std::pair<TFirst, TSecond>` of fundamental values. */
  class Pair {
    var first: Value
    var second: Value
    const firstTarget: Target
    const secondTarget: Target

    ghost predicate Valid()
      reads this
    {
      LegacyTarget(firstTarget) && LegacyTarget(secondTarget)
      && HasType(first, firstTarget) && HasType(second, secondTarget)
    }

    constructor (first: Value, second: Value, firstTarget: Target, secondTarget: Target)
      requires LegacyTarget(firstTarget) && LegacyTarget(secondTarget)
      requires HasType(first, firstTarget) && HasType(second, secondTarget)
      ensures Valid() && this.first == first && this.second == second
      ensures this.firstTarget == firstTarget && this.secondTarget == secondTarget
    {
      this.first := first;
      this.second := second;
      this.firstTarget := firstTarget;
      this.secondTarget := secondTarget;
    }
  }

  /** The members a saved pair adds to its object: `"key"` then `"value"`. */
  function PairMembers(first: Value, second: Value): (r: seq<Member>)
    ensures Names(r) == [KeyName, ValueName]
  {
    [Member(KeyName, EncodeScalar(first)), Member(ValueName, EncodeScalar(second))]
  }

  /**
   * The object a saved pair becomes loads back into a pair of the same
   * types as the same two values; a component `GetInt` refuses (an
   * `unsigned int` above 2^31 - 1) fails the getter's assertion instead.
   */
  lemma PairRoundTrip(first: Value, second: Value, firstTarget: Target, secondTarget: Target)
    requires LegacyTarget(firstTarget) && LegacyTarget(secondTarget)
    requires HasType(first, firstTarget) && HasType(second, secondTarget)
    ensures LegacyLoadMember(PairMembers(first, second), KeyName, firstTarget) ==
      if GetIntRefuses(first, firstTarget) then AssertionFailed else Loaded(first)
    ensures LegacyLoadMember(PairMembers(first, second), ValueName, secondTarget) ==
      if GetIntRefuses(second, secondTarget) then AssertionFailed else Loaded(second)
  {
    var ms := PairMembers(first, second);
    assert FindMember(ms, KeyName) == Some(0);
    assert ms[0].name != ValueName;
    assert FindMember(ms, ValueName) == Some(1);
    LegacyRoundTrip(first, firstTarget);
    LegacyRoundTrip(second, secondTarget);
  }

  /**
   * `PairSerializer::Serialize`: `first` under `"key"`, then `second` under
   * `"value"`. Loading overwrites each component whose member loads, the
   * const `first` included; saving appends both members, in that order.
   */
  method SerializePairMembers(scope: ObjectScope, pair: Pair)
    requires scope.Valid() && pair.Valid()
    requires scope.mode == Save ==>
      FindMember(scope.Members(), KeyName).None? && FindMember(scope.Members(), ValueName).None?
    modifies scope.doc, pair
    ensures scope.Valid() && pair.Valid()
    ensures scope.mode == Load ==>
      (scope.doc.root == old(scope.doc.root)
      && pair.first == LoadedOr(LegacyLoadMember(scope.Members(), KeyName, pair.firstTarget), old(pair.first))
      && pair.second == LoadedOr(LegacyLoadMember(scope.Members(), ValueName, pair.secondTarget), old(pair.second)))
    ensures scope.mode == Save ==>
      (pair.first == old(pair.first) && pair.second == old(pair.second)
      && scope.Members() == old(scope.Members()) + PairMembers(pair.first, pair.second)
      && scope.doc.root == Put(old(scope.doc.root), scope.loc, JObject(scope.Members())))
  {
    if scope.mode == Load {
      var r1 := scope.LoadValue(KeyName, pair.firstTarget);
      if r1.Loaded? {
        pair.first := r1.v;
      }
      var r2 := scope.LoadValue(ValueName, pair.secondTarget);
      if r2.Loaded? {
        pair.second := r2.v;
      }
    } else {
      ghost var root0 := scope.doc.root;
      ghost var ms := scope.Members();
      FindMemberAppend(ms, Member(KeyName, EncodeScalar(pair.first)), ValueName);
      scope.SaveValue(KeyName, pair.first);
      ghost var ms1 := scope.Members();
      scope.SaveValue(ValueName, pair.second);
      PutTwice(root0, scope.loc, JObject(ms1), JObject(scope.Members()));
      assert scope.Members() == ms + PairMembers(pair.first, pair.second);
    }
  }

  /** The component after a load: the loaded value, or the value it had. */
  function LoadedOr(r: LoadResult<Value>, before: Value): (v: Value)
    ensures r.Loaded? ==> v == r.v
    ensures !r.Loaded? ==> v == before
  {
    if r.Loaded? then r.v else before
  }

  /**
   * `Serialize(archive, key, pair)`: the pair as an object member under
   * `key`. Loading reports whether the member was an object and fills the
   * pair from it; saving adds the member, holding exactly the pair's two
   * members, after the existing ones.
   */
  method SerializePairWithKey(scope: ObjectScope, key: string, pair: Pair) returns (loaded: bool)
    requires scope.Valid() && pair.Valid()
    requires scope.mode == Save ==> FindMember(scope.Members(), key).None?
    modifies scope.doc, pair
    ensures scope.Valid() && pair.Valid()
    ensures scope.mode == Load ==>
      (scope.doc.root == old(scope.doc.root)
      && (loaded <==> FindMember(scope.Members(), key).Some? && scope.Members()[FindMember(scope.Members(), key).value].value.JObject?)
      && (!loaded ==> pair.first == old(pair.first) && pair.second == old(pair.second)))
    ensures loaded && scope.mode == Load ==>
      (FindMember(scope.Members(), key).Some?
      && var ms := scope.Members()[FindMember(scope.Members(), key).value].value.members;
      pair.first == LoadedOr(LegacyLoadMember(ms, KeyName, pair.firstTarget), old(pair.first))
      && pair.second == LoadedOr(LegacyLoadMember(ms, ValueName, pair.secondTarget), old(pair.second)))
    ensures scope.mode == Save ==>
      (loaded && pair.first == old(pair.first) && pair.second == old(pair.second)
      && scope.Members() == old(scope.Members()) + [Member(key, JObject(PairMembers(pair.first, pair.second)))])
  {
    ghost var ms := scope.Members();
    ghost var root0 := scope.doc.root;
    var child := scope.OpenObjectScope(key);
    loaded := child != null;
    if child != null {
      if scope.mode == Save {
        ghost var p := |ms|;
        FindMemberAppend(ms, Member(key, JObject([])), key);
        assert child.loc == scope.loc + [Field(p)];
        ghost var r1 := scope.doc.root;
        PutAt(root0, scope.loc, JObject(ms + [Member(key, JObject([]))]));
        AtSnoc(r1, scope.loc, Field(p));
        assert child.Members() == [];
        SerializePairMembers(child, pair);
        var obj := JObject(PairMembers(pair.first, pair.second));
        assert child.Members() == PairMembers(pair.first, pair.second);
        assert scope.doc.root == Put(r1, child.loc, obj);
        PutBelow(r1, scope.loc, [Field(p)], obj);
        assert Put(JObject(ms + [Member(key, JObject([]))]), [Field(p)], obj) == JObject(ms + [Member(key, obj)]);
      } else {
        AtSnoc(root0, scope.loc, Field(FindMember(ms, key).value));
        SerializePairMembers(child, pair);
      }
    }
  }

  /**
   * `Serialize(archive, pair)`: the pair as the next item of an array.
   * Loading fills the pair when the next item is an object; saving appends
   * an object holding exactly the pair's two members.
   */
  method SerializePairItem(scope: ArrayScope, pair: Pair)
    requires scope.Valid() && pair.Valid()
    requires scope.mode == Save ==> |scope.Items()| < scope.capacity
    modifies scope, scope.doc, pair
    ensures scope.Valid() && pair.Valid()
    ensures scope.mode == Load ==> scope.doc.root == old(scope.doc.root)
    ensures scope.mode == Load && !(old(scope.index) < |scope.Items()| && scope.Items()[old(scope.index)].JObject?) ==>
      pair.first == old(pair.first) && pair.second == old(pair.second)
    ensures scope.mode == Load && old(scope.index) < |scope.Items()| && scope.Items()[old(scope.index)].JObject? ==>
      (var ms := scope.Items()[old(scope.index)].members;
      pair.first == LoadedOr(LegacyLoadMember(ms, KeyName, pair.firstTarget), old(pair.first))
      && pair.second == LoadedOr(LegacyLoadMember(ms, ValueName, pair.secondTarget), old(pair.second)))
    ensures scope.mode == Save ==>
      (pair.first == old(pair.first) && pair.second == old(pair.second)
      && scope.Items() == old(scope.Items()) + [JObject(PairMembers(pair.first, pair.second))])
  {
    ghost var items := scope.Items();
    ghost var root0 := scope.doc.root;
    ghost var i := scope.index;
    var child := scope.OpenObjectScope();
    if child != null {
      if scope.mode == Save {
        ghost var r1 := scope.doc.root;
        PutAt(root0, scope.loc, JArray(items + [JObject([])]));
        AtSnoc(r1, scope.loc, Item(i));
        assert child.Members() == [];
        SerializePairMembers(child, pair);
        var obj := JObject(PairMembers(pair.first, pair.second));
        assert child.Members() == PairMembers(pair.first, pair.second);
        assert scope.doc.root == Put(r1, child.loc, obj);
        PutBelow(r1, scope.loc, [Item(i)], obj);
        assert Put(JArray(items + [JObject([])]), [Item(i)], obj) == JArray(items + [obj]);
      } else {
        AtSnoc(root0, scope.loc, Item(i));
        SerializePairMembers(child, pair);
      }
    }
  }
}
