/**
 * The paths the scopes report (`GetPath`), used to name the field a
 * validation or load error belongs to. Every archive builds them the same
 * way: a scope's path is its parent's path followed by `'/'` and the key
 * it was opened under; an array scope adds `'/'` and an index. The JSON
 * archives call this a JSON Pointer (RFC 6901) but write keys unescaped.
 */
module Paths {
  import opened Numbers

  /** What a scope adds to its parent's path: nothing for an empty key, otherwise `'/'` and the key. */
  function LocalPath(key: string): string {
    if key == [] then [] else "/" + key
  }

  /** The path of a scope opened under `key` by a parent whose path is `parentPath` (the root has no parent: `""`). */
  function ScopePath(parentPath: string, key: string): string {
    parentPath + LocalPath(key)
  }

  /** The path of the scope reached from the root through scopes opened under `keys`, in order. */
  function ChainPath(keys: seq<string>): string
    decreases |keys|
  {
    if keys == [] then "" else ScopePath(ChainPath(keys[..|keys| - 1]), keys[|keys| - 1])
  }

  /** The keys that are not empty, in order. */
  function NonEmpty(keys: seq<string>): (r: seq<string>)
    ensures forall i :: 0 <= i < |r| ==> r[i] != []
    ensures |r| <= |keys|
    decreases |keys|
  {
    if keys == [] then []
    else if keys[|keys| - 1] == [] then NonEmpty(keys[..|keys| - 1])
    else NonEmpty(keys[..|keys| - 1]) + [keys[|keys| - 1]]
  }

  /** A JSON Pointer built from reference tokens written as they are: `'/'` before each. */
  function Pointer(tokens: seq<string>): string
    decreases |tokens|
  {
    if tokens == [] then "" else Pointer(tokens[..|tokens| - 1]) + "/" + tokens[|tokens| - 1]
  }

  /** The path of a chain of scopes is the pointer of its non-empty keys: scopes opened without a key (array items, the root) add nothing. */
  lemma {:induction false} ChainPathIsPointer(keys: seq<string>)
    ensures ChainPath(keys) == Pointer(NonEmpty(keys))
    decreases |keys|
  {
    if keys != [] {
      var init := keys[..|keys| - 1];
      var last := keys[|keys| - 1];
      ChainPathIsPointer(init);
      if last != [] {
        var ne := NonEmpty(init) + [last];
        assert ne[..|ne| - 1] == NonEmpty(init);
        assert Pointer(ne) == Pointer(NonEmpty(init)) + "/" + last;
        assert ChainPath(keys) == ChainPath(init) + ("/" + last);
      }
    }
  }

  /**
   * Keys are not escaped as section 3 of RFC 6901 asks (`'/'` as `~1`):
   * one key holding a `'/'` gives the same path as two nested keys.
   */
  lemma SlashInKeyIsAmbiguous()
    ensures ChainPath(["a/b"]) == ChainPath(["a", "b"])
  {
    assert ChainPath(["a"]) == "/a";
    assert ["a", "b"][..1] == ["a"];
    assert ChainPath(["a", "b"]) == "/a" + "/b";
  }

  /** The path of an array scope in the JSON archives: the index of the item last loaded or saved, `0` before the first. */
  function IndexPath(basePath: string, index: nat): string {
    basePath + "/" + NatToString(if index == 0 then 0 else index - 1)
  }

  /** The path of an array scope of the test archive stub: the number of items loaded or saved so far. */
  function StubIndexPath(basePath: string, index: nat): string {
    basePath + "/" + NatToString(index)
  }

  /** Once items have been touched, the JSON archives name the last one, and the stub names the position after it. */
  lemma IndexPathNamesLastItem(basePath: string, i: nat)
    ensures IndexPath(basePath, i + 1) == basePath + "/" + NatToString(i)
    ensures StubIndexPath(basePath, i + 1) != basePath + "/" + NatToString(i)
  {
    if StubIndexPath(basePath, i + 1) == basePath + "/" + NatToString(i) {
      var n := |basePath| + 1;
      assert NatToString(i + 1) == StubIndexPath(basePath, i + 1)[n..];
      assert NatToString(i) == (basePath + "/" + NatToString(i))[n..];
      NatToStringInjective(i + 1, i);
    }
  }

  /** The two array paths name different items after every load or save, and agree only before the first. */
  lemma IndexPathsDiffer(basePath: string, index: nat)
    ensures StubIndexPath(basePath, index) == IndexPath(basePath, index) <==> index == 0
  {
    if index > 0 {
      IndexPathNamesLastItem(basePath, index - 1);
    }
  }
}
