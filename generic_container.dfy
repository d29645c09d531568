/**
 * `SerializeContainer` (`generic_container.h`): a sequence container of
 * fundamental values serialized through an array scope of the legacy
 * RapidJson archive, the archive generation whose array scope offers
 * `GetSize`. Both overloads, with and without a key, have the same body;
 * the key only selects the overload, so one method models both.
 */
module GenericContainer {
  import opened Numbers
  import opened JsonTree
  import opened LegacyRapidJsonArchive

  /** The value a default-constructed element holds: `false`, `0`, `0.0` or an empty string. */
  function DefaultValue(target: Target): (r: Value)
    requires !target.NullTarget?
    ensures HasType(r, target)
  {
    match target
    case BoolTarget => BoolVal(false)
    case IntTarget(_) => IntVal(0)
    case FloatTarget => FloatVal(FromInt(0))
    case StringTarget => StrVal("")
  }

  /** `n` default-constructed elements. */
  function Defaults(n: nat, target: Target): (r: seq<Value>)
    requires !target.NullTarget?
    ensures |r| == n && forall i :: 0 <= i < n ==> r[i] == DefaultValue(target)
  {
    seq(n, _ => DefaultValue(target))
  }

  /**
   * `cont.resize(n)`: the container holds `n` elements; those it had keep
   * their values up to the new length, and the new ones are
   * default-constructed.
   */
  function Resize(elems: seq<Value>, n: nat, target: Target): (r: seq<Value>)
    requires !target.NullTarget?
    ensures |r| == n
    ensures forall i :: 0 <= i < n ==> r[i] == if i < |elems| then elems[i] else DefaultValue(target)
  {
    var kept := Min(|elems|, n);
    elems[..kept] + Defaults(n - kept, target)
  }

  /** Resizing to the current length changes nothing, and shrinking keeps a prefix. */
  lemma ResizeKeepsPrefix(elems: seq<Value>, n: nat, target: Target)
    requires !target.NullTarget?
    ensures n <= |elems| ==> Resize(elems, n, target) == elems[..n]
    ensures Resize(elems, |elems|, target) == elems
  {
    if n <= |elems| {
      assert Resize(elems, n, target) == elems[..n];
    }
    assert Resize(elems, |elems|, target) == elems[..|elems|];
  }

  /**
   * Element `i` after loading: item `start + i` when there is one and it
   * loads, otherwise the element as it was. A failed getter assertion is
   * carried past as if nothing loaded.
   */
  function ElementAfterLoad(items: seq<Json>, k: nat, before: Value, target: Target): Value
    requires !target.NullTarget?
  {
    if k < |items| && LegacyLoad(items[k], target).Loaded? then LegacyLoad(items[k], target).v else before
  }

  /** The saved items of a container: one node per element, in container order. */
  function EncodeAll(vs: seq<Value>): (r: seq<Json>)
    ensures |r| == |vs| && forall i :: 0 <= i < |vs| ==> r[i] == EncodeScalar(vs[i])
  {
    if vs == [] then [] else [EncodeScalar(vs[0])] + EncodeAll(vs[1..])
  }

  predicate AllOfType(vs: seq<Value>, target: Target) {
    forall i :: 0 <= i < |vs| ==> HasType(vs[i], target)
  }

  /**
   * Saving a container into an empty array and loading the array into a
   * container of the same length gives the elements back, whatever the
   * container held before loading; only an element `GetInt` refuses (an
   * `unsigned int` above 2^31 - 1) fails the getter's assertion instead.
   */
  lemma ContainerRoundTrip(vs: seq<Value>, before: seq<Value>, target: Target)
    requires LegacyTarget(target) && AllOfType(vs, target) && |before| == |vs|
    ensures forall i :: 0 <= i < |vs| && !GetIntRefuses(vs[i], target) ==>
      ElementAfterLoad(EncodeAll(vs), i, before[i], target) == vs[i]
    ensures forall i :: 0 <= i < |vs| && GetIntRefuses(vs[i], target) ==>
      LegacyLoad(EncodeAll(vs)[i], target) == AssertionFailed
  {
    forall i | 0 <= i < |vs|
      ensures !GetIntRefuses(vs[i], target) ==> ElementAfterLoad(EncodeAll(vs), i, before[i], target) == vs[i]
      ensures GetIntRefuses(vs[i], target) ==> LegacyLoad(EncodeAll(vs)[i], target) == AssertionFailed
    {
      LegacyRoundTrip(vs[i], target);
    }
  }

  /** A container of fundamental values: a `std::vector`/`std::deque`/`std::list` (resizeable) or a `std::array`. */
  class Container {
    var elems: seq<Value>
    const resizeable: bool
    const target: Target

    ghost predicate Valid()
      reads this
    {
      LegacyTarget(target) && AllOfType(elems, target)
    }

    constructor (elems: seq<Value>, resizeable: bool, target: Target)
      requires LegacyTarget(target) && AllOfType(elems, target)
      ensures Valid() && this.elems == elems && this.resizeable == resizeable && this.target == target
    {
      this.elems := elems;
      this.resizeable := resizeable;
      this.target := target;
    }
  }

  /** The loading half of `SerializeContainer`. */
  method LoadContainer(scope: ArrayScope, cont: Container)
    requires scope.Valid() && cont.Valid() && scope.mode == Load
    modifies scope, cont
    ensures scope.Valid() && cont.Valid() && scope.doc.root == old(scope.doc.root)
    ensures |cont.elems| == (if cont.resizeable then old(scope.GetSize()) else old(|cont.elems|))
    ensures scope.index == Min(old(scope.index) + |cont.elems|, |scope.Items()|)
    ensures forall i :: 0 <= i < |cont.elems| ==>
      cont.elems[i] == ElementAfterLoad(scope.Items(), old(scope.index) + i,
        if cont.resizeable then Resize(old(cont.elems), old(scope.GetSize()), cont.target)[i] else old(cont.elems[i]),
        cont.target)
  {
    if cont.resizeable {
      cont.elems := Resize(cont.elems, scope.GetSize(), cont.target);
    }
    ghost var before := cont.elems;
    ghost var start := scope.index;
    var i := 0;
    while i < |cont.elems|
      invariant scope.Valid() && cont.Valid()
      invariant scope.doc.root == old(scope.doc.root)
      invariant 0 <= i <= |cont.elems| == |before|
      invariant scope.index == Min(start + i, |scope.Items()|)
      invariant forall k :: 0 <= k < i ==> cont.elems[k] == ElementAfterLoad(scope.Items(), start + k, before[k], cont.target)
      invariant forall k :: i <= k < |cont.elems| ==> cont.elems[k] == before[k]
    {
      var r := scope.LoadValue(cont.target);
      if r.Loaded? {
        cont.elems := cont.elems[i := r.v];
      }
      i := i + 1;
    }
  }

  /** The saving half of `SerializeContainer`: the elements appended in order, the rest of the document untouched. */
  method SaveContainer(scope: ArrayScope, cont: Container)
    requires scope.Valid() && cont.Valid() && scope.mode == Save
    requires |scope.Items()| + |cont.elems| <= scope.capacity
    modifies scope, scope.doc
    ensures scope.Valid()
    ensures scope.Items() == old(scope.Items()) + EncodeAll(cont.elems)
    ensures scope.doc.root == Put(old(scope.doc.root), scope.loc, JArray(scope.Items()))
  {
    ghost var items0 := scope.Items();
    ghost var root0 := scope.doc.root;
    PutSame(root0, scope.loc);
    var i := 0;
    while i < |cont.elems|
      invariant scope.Valid()
      invariant 0 <= i <= |cont.elems|
      invariant scope.Items() == items0 + EncodeAll(cont.elems[..i])
      invariant scope.doc.root == Put(root0, scope.loc, JArray(scope.Items()))
    {
      scope.SaveValue(cont.elems[i]);
      PutTwice(root0, scope.loc, JArray(items0 + EncodeAll(cont.elems[..i])), JArray(scope.Items()));
      assert cont.elems[..i + 1] == cont.elems[..i] + [cont.elems[i]];
      assert EncodeAll(cont.elems[..i + 1]) == EncodeAll(cont.elems[..i]) + [EncodeScalar(cont.elems[i])];
      i := i + 1;
    }
    assert cont.elems[..i] == cont.elems;
  }

  /**
   * `SerializeContainer(arrayScope, [key,] cont)`. Loading: a resizeable
   * container is first resized to `GetSize()` elements; then every element,
   * in order, takes the next item that loads and otherwise keeps its value.
   * Saving: every element, in order, is appended; the container is unchanged.
   */
  method SerializeContainer(scope: ArrayScope, cont: Container)
    requires scope.Valid() && cont.Valid()
    requires scope.mode == Save ==> |scope.Items()| + |cont.elems| <= scope.capacity
    modifies scope, scope.doc, cont
    ensures scope.Valid() && cont.Valid()
    ensures scope.mode == Load ==>
      (scope.doc.root == old(scope.doc.root)
      && |cont.elems| == (if cont.resizeable then old(scope.GetSize()) else old(|cont.elems|))
      && forall i :: 0 <= i < |cont.elems| ==>
        cont.elems[i] == ElementAfterLoad(scope.Items(), old(scope.index) + i,
          if cont.resizeable then Resize(old(cont.elems), old(scope.GetSize()), cont.target)[i] else old(cont.elems[i]),
          cont.target))
    ensures scope.mode == Save ==>
      (cont.elems == old(cont.elems)
      && scope.Items() == old(scope.Items()) + EncodeAll(cont.elems)
      && scope.doc.root == Put(old(scope.doc.root), scope.loc, JArray(scope.Items())))
  {
    if scope.mode == Load {
      LoadContainer(scope, cont);
    } else {
      SaveContainer(scope, cont);
    }
  }

  function Min(a: int, b: int): int {
    if a < b then a else b
  }
}
