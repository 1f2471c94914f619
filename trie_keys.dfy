/** The pre-order enumeration of `_collect`, `keys` and `keys_with_prefix`
    (trie.py:86-108). */
module TrieKeys {
  import opened Wrappers
  import opened TrieNodes

  /** The concatenation of a sequence of result lists, in order. */
  function Flatten(ss: seq<seq<string>>): seq<string> {
    if ss == [] then [] else Flatten(ss[..|ss| - 1]) + ss[|ss| - 1]
  }

  /** What `_collect(n, path, results)` appends to `results`: `path` itself when `n`
      holds a value, then the keys below each child, children in their order. */
  function Keys<V>(n: Node<V>, path: string): seq<string>
    decreases n, 1
  {
    (if n.value.Some? then [path] else []) + Flatten(KeysBelow(n, path))
  }

  /** The keys below each child of `n`, child by child. */
  function KeysBelow<V>(n: Node<V>, path: string): seq<seq<string>>
    decreases n, 0
  {
    seq(|n.children|, i requires 0 <= i < |n.children| =>
      Keys(n.children[i].1, path + [n.children[i].0]))
  }

  /** No string occurs twice. */
  ghost predicate NoDup(s: seq<string>) {
    forall i, j :: 0 <= i < j < |s| ==> s[i] != s[j]
  }

  lemma {:induction false} FlattenMember(ss: seq<seq<string>>, x: string)
    ensures x in Flatten(ss) <==> exists i :: 0 <= i < |ss| && x in ss[i]
    decreases |ss|
  {
    if ss != [] {
      var ss' := ss[..|ss| - 1];
      FlattenMember(ss', x);
      assert forall i :: 0 <= i < |ss'| ==> ss'[i] == ss[i];
    }
  }

  /** Lists without duplicates whose elements are pairwise apart flatten to a list
      without duplicates. */
  lemma {:induction false} FlattenNoDup(ss: seq<seq<string>>)
    requires forall i :: 0 <= i < |ss| ==> NoDup(ss[i])
    requires forall i, j, x :: 0 <= i < j < |ss| && x in ss[i] ==> x !in ss[j]
    ensures NoDup(Flatten(ss))
    decreases |ss|
  {
    if ss != [] {
      var ss' := ss[..|ss| - 1];
      var last := ss[|ss| - 1];
      FlattenNoDup(ss');
      var f := Flatten(ss');
      forall x | x in f ensures x !in last {
        FlattenMember(ss', x);
      }
      assert Flatten(ss) == f + last;
      forall i, j | 0 <= i < j < |f + last| ensures (f + last)[i] != (f + last)[j] {
        if j >= |f| && i < |f| {
          assert (f + last)[i] in f;
          assert (f + last)[j] in last;
        }
      }
    }
  }

  /** The length of a flattened list is the sum of the lengths. */
  lemma {:induction false} FlattenLength(ss: seq<seq<string>>, s: seq<nat>)
    requires |ss| == |s| && forall i :: 0 <= i < |s| ==> |ss[i]| == s[i]
    ensures |Flatten(ss)| == Sum(s)
    decreases |ss|
  {
    if ss != [] {
      FlattenLength(ss[..|ss| - 1], s[..|s| - 1]);
    }
  }

  /** Every enumerated key starts with the path it was collected under. */
  lemma {:induction false} KeysExtendPath<V>(n: Node<V>, path: string, k: string)
    requires k in Keys(n, path)
    ensures path <= k
    decreases n
  {
    if k !in (if n.value.Some? then [path] else []) {
      var kb := KeysBelow(n, path);
      FlattenMember(kb, k);
      var i :| 0 <= i < |kb| && k in kb[i];
      KeysExtendPath(n.children[i].1, path + [n.children[i].0], k);
    }
  }

  /** Every string `_collect(n, path, ...)` reports is `path + q` for a `q` that reads
      a value below `n`. */
  lemma {:induction false} KeysSound<V>(n: Node<V>, path: string, k: string)
    requires Wf(n) && k in Keys(n, path)
    ensures path <= k && Find(n, k[|path|..]).Some?
    decreases n
  {
    KeysExtendPath(n, path, k);
    var kb := KeysBelow(n, path);
    if k !in (if n.value.Some? then [path] else []) {
      FlattenMember(kb, k);
      var i :| 0 <= i < |kb| && k in kb[i];
      var (c, m) := n.children[i];
      KeysExtendPath(m, path + [c], k);
      KeysSound(m, path + [c], k);
      assert Child(n.children, c) == Some(m);
      assert k[|path|..] == [c] + k[|path| + 1..];
    } else {
      assert k[|path|..] == [];
    }
  }

  /** Every `path + q` for which `q` reads a value below `n` is reported. */
  lemma {:induction false} KeysComplete<V>(n: Node<V>, path: string, k: string)
    requires Wf(n) && path <= k && Find(n, k[|path|..]).Some?
    ensures k in Keys(n, path)
    decreases n
  {
    if k == path {
      assert k[|path|..] == [];
    } else {
      var kb := KeysBelow(n, path);
      var c := k[|path|];
      assert k[|path|..] == [c] + k[|path| + 1..];
      var m := Child(n.children, c).value;
      var i :| 0 <= i < |n.children| && n.children[i].0 == c && n.children[i].1 == m;
      assert path + [c] <= k;
      assert Find(n, k[|path|..]) == Find(m, k[|path| + 1..]);
      KeysComplete(m, path + [c], k);
      assert k in kb[i];
      FlattenMember(kb, k);
    }
  }

  /** `_collect(n, path, ...)` reports exactly the strings `path + q` for which `q`
      reads a value below `n`. */
  lemma KeysMember<V>(n: Node<V>, path: string, k: string)
    requires Wf(n)
    ensures k in Keys(n, path) <==> path <= k && Find(n, k[|path|..]).Some?
  {
    if k in Keys(n, path) {
      KeysSound(n, path, k);
    }
    if path <= k && Find(n, k[|path|..]).Some? {
      KeysComplete(n, path, k);
    }
  }

  /** `_collect` never reports a key twice. */
  lemma {:induction false} KeysNoDup<V>(n: Node<V>, path: string)
    requires Wf(n)
    ensures NoDup(Keys(n, path))
    decreases n
  {
    var kb := KeysBelow(n, path);
    forall i | 0 <= i < |kb| ensures NoDup(kb[i]) {
      KeysNoDup(n.children[i].1, path + [n.children[i].0]);
    }
    forall i, j, x | 0 <= i < j < |kb| && x in kb[i] ensures x !in kb[j] {
      KeysExtendPath(n.children[i].1, path + [n.children[i].0], x);
      assert x[|path|] == n.children[i].0;
      if x in kb[j] {
        KeysExtendPath(n.children[j].1, path + [n.children[j].0], x);
      }
    }
    FlattenNoDup(kb);
    FlattenMember(kb, path);
    forall x | x in Flatten(kb) ensures |x| > |path| {
      FlattenMember(kb, x);
      var i :| 0 <= i < |kb| && x in kb[i];
      KeysExtendPath(n.children[i].1, path + [n.children[i].0], x);
    }
    var pre := if n.value.Some? then [path] else [];
    var f := Flatten(kb);
    forall i, j | 0 <= i < j < |pre + f| ensures (pre + f)[i] != (pre + f)[j] {
      if i < |pre| {
        assert (pre + f)[j] in f;
      }
    }
  }

  /** The enumeration reports one key per value-holding node: `len(keys())` is the count. */
  lemma {:induction false} KeysCount<V>(n: Node<V>, path: string)
    ensures |Keys(n, path)| == Count(n)
    decreases n
  {
    var kb := KeysBelow(n, path);
    forall i | 0 <= i < |kb| ensures |kb[i]| == Counts(n)[i] {
      KeysCount(n.children[i].1, path + [n.children[i].0]);
    }
    FlattenLength(kb, Counts(n));
  }

  /** A one-element concatenation is its element. */
  lemma FlattenOne(x: seq<string>)
    ensures Flatten([x]) == x
  {
    assert [x][..0] == [];
  }

  /** `_collect` at a node with one child: the node's own key, if it holds a value,
      then the keys below the child. */
  lemma KeysOne<V>(v: Option<V>, c: char, m: Node<V>, path: string)
    ensures Keys(Node(v, [(c, m)]), path) == (if v.Some? then [path] else []) + Keys(m, path + [c])
  {
    assert KeysBelow(Node(v, [(c, m)]), path) == [Keys(m, path + [c])];
    FlattenOne(Keys(m, path + [c]));
  }

  /** `_collect` at a valueless node with two children: the first child's keys, then
      the second's. */
  lemma KeysPair<V>(c: char, m: Node<V>, d: char, o: Node<V>, path: string)
    ensures Keys(Node(None, [(c, m), (d, o)]), path) == Keys(m, path + [c]) + Keys(o, path + [d])
  {
    var kb := KeysBelow(Node(None, [(c, m), (d, o)]), path);
    assert kb == [Keys(m, path + [c]), Keys(o, path + [d])];
    assert kb[..1] == [Keys(m, path + [c])];
    FlattenOne(Keys(m, path + [c]));
  }
}
