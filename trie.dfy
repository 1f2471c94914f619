/** trie.py's `Trie`: the root node and the running `size`, updated in place. */
module Tries {
  import opened Wrappers
  import opened TrieNodes
  import opened TrieInsert
  import opened TrieDelete
  import opened TrieKeys

  /** `_collect(node, path, results)`. The Python lists `path` and `results` are shared
      with the caller; here each goes in as a parameter and comes back out. */
  method Collect<V>(node: Node<V>, path: string, results: seq<string>)
    returns (path': string, results': seq<string>)
    ensures path' == path
    ensures results' == results + Keys(node, path)
    decreases node
  {
    path', results' := path, results;
    if node.value.Some? {
      results' := results' + [path'];
    }
    ghost var pre := if node.value.Some? then [path] else [];
    ghost var kb := KeysBelow(node, path);
    var i := 0;
    while i < |node.children|
      invariant i <= |node.children|
      invariant path' == path
      invariant results' == results + pre + Flatten(kb[..i])
    {
      var (ch, child) := node.children[i];
      path' := path' + [ch];
      path', results' := Collect(child, path', results');
      path' := path'[..|path'| - 1];
      assert kb[..i + 1][..i] == kb[..i];
      i := i + 1;
    }
    assert kb[..i] == kb;
  }

  class Trie<V> {
    var root: Node<V>
    var size: nat
    /** True while every `put` so far stored a present value. `put(key, None)` adds to
        `size` without storing a key, or clears a key without lowering `size`, and
        from then on `size` only bounds the number of keys. */
    ghost var exact: bool

    ghost predicate Valid()
      reads this
    {
      && Wf(root)
      && root.value.None?
      && Count(root) <= size
      && (exact ==> size == Count(root) && Pruned(root))
    }

    constructor ()
      ensures Valid() && root == Empty() && size == 0 && exact
    {
      root := Empty();
      size := 0;
      exact := true;
    }

    /** `put(key, value)`: rejects the empty key before touching anything; otherwise
        stores `value` under `key` (last write wins) and counts the key when its
        node held no value before, whatever `value` is. */
    method Put(key: string, value: Option<V>) returns (r: Result<()>)
      requires Valid()
      modifies this
      ensures Valid()
      ensures r.Err? <==> key == []
      ensures key == [] ==> root == old(root) && size == old(size) && exact == old(exact)
      ensures key != [] ==> root == Insert(old(root), key, value)
      ensures key != [] ==> size == old(size) + if old(Find(root, key)).None? then 1 else 0
      ensures key != [] ==> exact == (old(exact) && value.Some?)
      ensures key != [] ==> forall k :: Find(root, k) == if k == key then value else old(Find(root, k))
    {
      if key == [] {
        return Err(TypeError);
      }
      ghost var before := root;
      var unset := Find(root, key).None?;
      root := Insert(root, key, value);
      if unset {
        size := size + 1;
      }
      exact := exact && value.Some?;
      InsertWf(before, key, value);
      CountInsert(before, key, value);
      InsertChild(before, key, value, key[0]);
      if exact {
        PrunedInsert(before, key, value);
      }
      forall k ensures Find(root, k) == if k == key then value else Find(before, k) {
        FindInsert(before, key, value, k);
      }
      return Ok(());
    }

    /** `get(key)`: rejects the empty key; otherwise the value under `key`, None as
        soon as a character has no child. */
    method Get(key: string) returns (r: Result<Option<V>>)
      ensures r.Err? <==> key == []
      ensures r.Ok? ==> r.value == Find(root, key)
    {
      if key == [] {
        return Err(TypeError);
      }
      var node := root;
      var i := 0;
      while i < |key|
        invariant i <= |key|
        invariant NodeAt(root, key[..i]) == Some(node)
      {
        var next := Child(node.children, key[i]);
        NodeAtSnoc(root, key[..i], key[i]);
        assert key[..i + 1] == key[..i] + [key[i]];
        if next.None? {
          NodeAtConcat(root, key[..i + 1], key[i + 1..]);
          assert key == key[..i + 1] + key[i + 1..];
          return Ok(None);
        }
        node := next.value;
        i := i + 1;
      }
      assert key[..i] == key;
      return Ok(node.value);
    }

    /** `delete(key)`: rejects the empty key; otherwise clears the value under `key`
        and lowers `size` when there was one, prunes the nodes left useless, and
        returns the root's prune signal, which is True only when the trie is left
        with no children at all. */
    method Delete(key: string) returns (r: Result<bool>)
      requires Valid()
      modifies this
      ensures Valid() && exact == old(exact)
      ensures r.Err? <==> key == []
      ensures key == [] ==> root == old(root) && size == old(size)
      ensures key != [] ==> root == Remove(old(root), key).node
      ensures key != [] ==> size == old(size) - if old(Find(root, key)).Some? then 1 else 0
      ensures key != [] ==> forall k :: Find(root, k) == if k == key then None else old(Find(root, k))
      ensures r.Ok? ==> (r.value <==> old(Find(root, key)).Some? && root.children == [])
      ensures r.Ok? && old(Find(root, key)).None? ==> root == old(root) && size == old(size)
      ensures r.Ok? && exact ==> (r.value <==> old(Find(root, key)).Some? && forall k :: Find(root, k).None?)
    {
      if key == [] {
        return Err(TypeError);
      }
      ghost var before := root;
      var removal := Remove(root, key);
      RemoveSignals(before, key);
      CountRemove(before, key);
      RemoveWf(before, key);
      RemoveChild(before, key, key[0]);
      if exact {
        PrunedRemove(before, key);
      }
      if !removal.removed {
        RemoveAbsent(before, key);
      }
      root := removal.node;
      if removal.removed {
        size := size - 1;
      }
      forall k ensures Find(root, k) == if k == key then None else Find(before, k) {
        FindRemove(before, key, k);
      }
      if exact {
        NoKeyIffBare(root);
      }
      return Ok(removal.prune);
    }

    /** `is_empty()`: `size == 0`. An empty answer is always right; while every
        `put` stored a present value it is also complete. */
    method IsEmpty() returns (b: bool)
      requires Valid()
      ensures b <==> size == 0
      ensures b ==> forall k :: Find(root, k).None?
      ensures exact ==> (b <==> forall k :: Find(root, k).None?)
    {
      CountZeroIffNoKey(root);
      b := size == 0;
    }

    /** `longest_prefix_of(s)`: rejects the empty string; otherwise the longest
        non-empty prefix of `s` that holds a value, or "" when there is none. */
    method LongestPrefixOf(s: string) returns (r: Result<string>)
      ensures r.Err? <==> s == []
      ensures r.Ok? ==> r.value <= s
      ensures r.Ok? && r.value != [] ==> Find(root, r.value).Some?
      ensures r.Ok? ==> forall j :: |r.value| < j <= |s| ==> Find(root, s[..j]).None?
    {
      if s == [] {
        return Err(TypeError);
      }
      var node := root;
      var longest: string := [];
      var current: string := [];
      var i := 0;
      while i < |s|
        invariant i <= |s|
        invariant current == s[..i]
        invariant NodeAt(root, current) == Some(node)
        invariant longest <= current
        invariant longest != [] ==> Find(root, longest).Some?
        invariant forall j :: |longest| < j <= i ==> Find(root, s[..j]).None?
      {
        var next := Child(node.children, s[i]);
        NodeAtSnoc(root, current, s[i]);
        assert s[..i + 1] == current + [s[i]];
        if next.None? {
          forall j | i < j <= |s| ensures Find(root, s[..j]).None? {
            FindBeyond(root, s[..i + 1], s[..j]);
          }
          break;
        }
        node := next.value;
        current := current + [s[i]];
        assert Find(root, current) == node.value;
        if node.value.Some? {
          longest := current;
        }
        i := i + 1;
      }
      return Ok(longest);
    }

    /** `_get_node(prefix)`: the node at the end of `prefix`'s path, or None. */
    method GetNode(prefix: string) returns (r: Option<Node<V>>)
      ensures r == NodeAt(root, prefix)
    {
      var node := root;
      var i := 0;
      while i < |prefix|
        invariant i <= |prefix|
        invariant NodeAt(root, prefix[..i]) == Some(node)
      {
        var next := Child(node.children, prefix[i]);
        NodeAtSnoc(root, prefix[..i], prefix[i]);
        assert prefix[..i + 1] == prefix[..i] + [prefix[i]];
        if next.None? {
          NodeAtConcat(root, prefix[..i + 1], prefix[i + 1..]);
          assert prefix == prefix[..i + 1] + prefix[i + 1..];
          return None;
        }
        node := next.value;
        i := i + 1;
      }
      assert prefix[..i] == prefix;
      return Some(node);
    }

    /** `keys_with_prefix(prefix)`: [] when `prefix`'s path is missing; otherwise the
        keys at or below its node in pre-order. These are exactly the stored keys
        that start with `prefix`, each once. The empty prefix is allowed. */
    method KeysWithPrefix(prefix: string) returns (ks: seq<string>)
      requires Valid()
      ensures ks == match NodeAt(root, prefix) case None => [] case Some(m) => TrieKeys.Keys(m, prefix)
      ensures forall k :: k in ks <==> prefix <= k && Find(root, k).Some?
      ensures NoDup(ks)
    {
      var node := GetNode(prefix);
      forall k | prefix <= k ensures Find(root, k) == match node case None => None case Some(m) => Find(m, k[|prefix|..]) {
        assert k == prefix + k[|prefix|..];
        FindConcat(root, prefix, k[|prefix|..]);
      }
      if node.None? {
        return [];
      }
      NodeAtWf(root, prefix);
      forall k ensures k in TrieKeys.Keys(node.value, prefix) <==> prefix <= k && Find(node.value, k[|prefix|..]).Some? {
        KeysMember(node.value, prefix, k);
      }
      KeysNoDup(node.value, prefix);
      var path, results := Collect(node.value, prefix, []);
      ks := results;
    }

    /** `keys()`: every stored key once, in pre-order, as many as `size` counts while
        every `put` stored a present value. */
    method Keys() returns (ks: seq<string>)
      requires Valid()
      ensures ks == TrieKeys.Keys(root, [])
      ensures forall k :: k in ks <==> Find(root, k).Some?
      ensures NoDup(ks)
      ensures exact ==> |ks| == size
    {
      var path, results := Collect(root, [], []);
      ks := results;
      forall k ensures k in ks <==> Find(root, k).Some? {
        KeysMember(root, [], k);
        assert k[0..] == k;
      }
      KeysNoDup(root, []);
      KeysCount(root, []);
    }
  }
}
