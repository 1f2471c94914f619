/** The node tree of trie.py. A `TrieNode` is modelled as a value: its optional
    payload and its children, an association list from characters to subtrees kept
    in the order in which each character was first added (the iteration order of
    the Python dict). */
module TrieNodes {
  import opened Wrappers

  datatype Node<V> = Node(value: Option<V>, children: seq<(char, Node<V>)>)

  /** A freshly allocated `TrieNode()`: no value, no children. */
  function Empty<V>(): Node<V> {
    Node(None, [])
  }

  /** A node that deletion prunes: it holds no value and has no children. */
  predicate Useless<V>(n: Node<V>) {
    n.value.None? && |n.children| == 0
  }

  /** The characters of an association list are pairwise distinct, as dict keys are. */
  ghost predicate Distinct<V>(cs: seq<(char, Node<V>)>) {
    forall i, j :: 0 <= i < j < |cs| ==> cs[i].0 != cs[j].0
  }

  /** Every children list at or below `n` has distinct characters. */
  ghost predicate Wf<V>(n: Node<V>) {
    && Distinct(n.children)
    && forall i :: 0 <= i < |n.children| ==> Wf(n.children[i].1)
  }

  /** No node strictly below `n` is useless: deletion never leaves one behind, and
      `put` with a present value never creates one. */
  ghost predicate Pruned<V>(n: Node<V>) {
    forall i :: 0 <= i < |n.children| ==>
      !Useless(n.children[i].1) && Pruned(n.children[i].1)
  }

  /** The position of character `c` in an association list, or -1. */
  function Index<V>(cs: seq<(char, Node<V>)>, c: char): (i: int)
    ensures -1 <= i < |cs|
    ensures 0 <= i ==> cs[i].0 == c
    ensures i == -1 <==> forall j :: 0 <= j < |cs| ==> cs[j].0 != c
  {
    if cs == [] then -1
    else if cs[0].0 == c then 0
    else
      var j := Index(cs[1..], c);
      if j == -1 then -1 else j + 1
  }

  /** `children.get(c)`: the child stored under `c`, or None when `c` is not a key. */
  function Child<V>(cs: seq<(char, Node<V>)>, c: char): (r: Option<Node<V>>)
    ensures r.None? <==> forall j :: 0 <= j < |cs| ==> cs[j].0 != c
    ensures r.Some? ==> exists j :: 0 <= j < |cs| && cs[j].0 == c && cs[j].1 == r.value
    ensures Distinct(cs) ==> forall j :: 0 <= j < |cs| && cs[j].0 == c ==> r == Some(cs[j].1)
  {
    var i := Index(cs, c);
    if i < 0 then None else Some(cs[i].1)
  }

  /** `children.setdefault(c, TrieNode())` read for its result: the child under `c`,
      or a fresh empty node. */
  function ChildOrEmpty<V>(cs: seq<(char, Node<V>)>, c: char): Node<V> {
    match Child(cs, c)
    case None => Empty()
    case Some(m) => m
  }

  /** `_get_node`: the node reached from `n` by following the characters of `p`, or
      None as soon as one of them has no child. */
  function NodeAt<V>(n: Node<V>, p: string): Option<Node<V>>
    decreases |p|
  {
    if p == [] then Some(n)
    else
      match Child(n.children, p[0])
      case None => None
      case Some(m) => NodeAt(m, p[1..])
  }

  /** What `get` returns: the value of the node at the end of `key`'s path, and None
      both when the path is missing and when its last node holds no value. */
  function Find<V>(n: Node<V>, key: string): Option<V> {
    match NodeAt(n, key)
    case None => None
    case Some(m) => m.value
  }

  /** The sum of a sequence of counts. */
  function Sum(s: seq<nat>): nat {
    if s == [] then 0 else Sum(s[..|s| - 1]) + s[|s| - 1]
  }

  /** The number of nodes at or below `n` that hold a value: what `size` counts. */
  function Count<V>(n: Node<V>): nat
    decreases n, 1
  {
    (if n.value.Some? then 1 else 0) + Sum(Counts(n))
  }

  /** The counts of `n`'s subtrees, child by child. */
  function Counts<V>(n: Node<V>): (s: seq<nat>)
    decreases n, 0
  {
    seq(|n.children|, i requires 0 <= i < |n.children| => Count(n.children[i].1))
  }

  // ---------------------------------------------------------------------------
  // The dict operations trie.py applies to a children mapping.

  /** `children[cs[i].0] = m`: the key keeps its place and only its child changes. */
  lemma ChildReplace<V>(cs: seq<(char, Node<V>)>, i: nat, m: Node<V>, d: char)
    requires Distinct(cs) && i < |cs|
    ensures Distinct(cs[i := (cs[i].0, m)])
    ensures Child(cs[i := (cs[i].0, m)], d) == if d == cs[i].0 then Some(m) else Child(cs, d)
  {
    var cs' := cs[i := (cs[i].0, m)];
    assert forall j :: 0 <= j < |cs| ==> cs'[j].0 == cs[j].0;
    if d != cs[i].0 && Child(cs, d).Some? {
      var j :| 0 <= j < |cs| && cs[j].0 == d;
      assert cs'[j] == cs[j];
    }
  }

  /** `setdefault` on a missing key appends it after all existing keys. */
  lemma ChildAppend<V>(cs: seq<(char, Node<V>)>, c: char, m: Node<V>, d: char)
    requires Distinct(cs) && Child(cs, c).None?
    ensures Distinct(cs + [(c, m)])
    ensures Child(cs + [(c, m)], d) == if d == c then Some(m) else Child(cs, d)
  {
    var cs' := cs + [(c, m)];
    assert cs'[|cs|] == (c, m);
    if d != c && Child(cs, d).Some? {
      var j :| 0 <= j < |cs| && cs[j].0 == d;
      assert cs'[j] == cs[j];
    }
  }

  /** `del children[cs[i].0]` removes that key and keeps the others in order. */
  lemma ChildDelete<V>(cs: seq<(char, Node<V>)>, i: nat, d: char)
    requires Distinct(cs) && i < |cs|
    ensures Distinct(cs[..i] + cs[i + 1..])
    ensures Child(cs[..i] + cs[i + 1..], d) == if d == cs[i].0 then None else Child(cs, d)
  {
    var cs' := cs[..i] + cs[i + 1..];
    assert forall j :: 0 <= j < |cs'| ==> cs'[j] == if j < i then cs[j] else cs[j + 1];
    if d != cs[i].0 && Child(cs, d).Some? {
      var j :| 0 <= j < |cs| && cs[j].0 == d;
      assert j != i;
      if j < i { assert cs'[j] == cs[j]; } else { assert cs'[j - 1] == cs[j]; }
    }
  }

  // ---------------------------------------------------------------------------
  // Paths.

  /** Following `p + q` is following `p`, then `q` from wherever `p` ends. */
  lemma {:induction false} NodeAtConcat<V>(n: Node<V>, p: string, q: string)
    ensures NodeAt(n, p + q) == match NodeAt(n, p) case None => None case Some(m) => NodeAt(m, q)
  {
    if p != [] {
      assert (p + q)[0] == p[0] && (p + q)[1..] == p[1..] + q;
      match Child(n.children, p[0])
      case None =>
      case Some(m) => NodeAtConcat(m, p[1..], q);
    } else {
      assert p + q == q;
    }
  }

  /** One more step of the walk: the node at `p + [c]` is the child `c` of the node at `p`. */
  lemma NodeAtSnoc<V>(n: Node<V>, p: string, c: char)
    ensures NodeAt(n, p + [c]) == match NodeAt(n, p) case None => None case Some(m) => Child(m.children, c)
  {
    NodeAtConcat(n, p, [c]);
    match NodeAt(n, p)
    case None =>
    case Some(m) => assert NodeAt(m, [c]) == Child(m.children, c) by { assert [c][1..] == []; }
  }

  /** The value under `p + q` is the value under `q` below the node at `p`. */
  lemma FindConcat<V>(n: Node<V>, p: string, q: string)
    ensures Find(n, p + q) == match NodeAt(n, p) case None => None case Some(m) => Find(m, q)
  {
    NodeAtConcat(n, p, q);
  }

  /** Every node reachable from a well-formed node is well formed. */
  lemma {:induction false} NodeAtWf<V>(n: Node<V>, p: string)
    requires Wf(n) && NodeAt(n, p).Some?
    ensures Wf(NodeAt(n, p).value)
    decreases |p|
  {
    if p != [] {
      var m := Child(n.children, p[0]).value;
      NodeAtWf(m, p[1..]);
    }
  }

  /** In a pruned tree, every node strictly below the root is pruned and not useless. */
  lemma {:induction false} NodeAtPruned<V>(n: Node<V>, p: string)
    requires Pruned(n) && p != [] && NodeAt(n, p).Some?
    ensures Pruned(NodeAt(n, p).value) && !Useless(NodeAt(n, p).value)
    decreases |p|
  {
    var m := Child(n.children, p[0]).value;
    if p[1..] != [] {
      NodeAtPruned(m, p[1..]);
    }
  }

  /** A pruned node that is not useless holds some key at or below it. */
  lemma {:induction false} HoldsKey<V>(n: Node<V>)
    requires Pruned(n) && !Useless(n)
    ensures exists q :: Find(n, q).Some?
    decreases n
  {
    if n.value.Some? {
      assert Find(n, []).Some?;
    } else {
      var c := n.children[0].0;
      var m := Child(n.children, c).value;
      HoldsKey(m);
      var q :| Find(m, q).Some?;
      FindConcat(n, [c], q);
      assert NodeAt(n, [c]) == Some(m) by { assert [c][1..] == []; }
    }
  }

  /** A pruned node without a value holds no key exactly when it has no children. */
  lemma NoKeyIffBare<V>(n: Node<V>)
    requires Pruned(n) && n.value.None?
    ensures n.children == [] <==> forall k :: Find(n, k).None?
  {
    if n.children == [] {
      forall k ensures Find(n, k).None? {
        if k != [] {
          assert Child(n.children, k[0]).None?;
        }
      }
    } else {
      var c := n.children[0].0;
      var m := Child(n.children, c).value;
      HoldsKey(m);
      var q :| Find(m, q).Some?;
      FindConcat(n, [c], q);
      assert NodeAt(n, [c]) == Some(m) by { assert [c][1..] == []; }
      assert Find(n, [c] + q).Some?;
    }
  }

  /** Once a path breaks off, no string extending it holds a value. */
  lemma FindBeyond<V>(n: Node<V>, p: string, q: string)
    requires NodeAt(n, p).None? && p <= q
    ensures Find(n, q).None?
  {
    NodeAtConcat(n, p, q[|p|..]);
    assert q == p + q[|p|..];
  }

  /** In a pruned tree a non-empty path exists exactly when some stored key extends it. */
  lemma PathIffKeyBelow<V>(n: Node<V>, p: string)
    requires Pruned(n) && p != []
    ensures NodeAt(n, p).Some? <==> exists k :: p <= k && Find(n, k).Some?
  {
    if NodeAt(n, p).Some? {
      var m := NodeAt(n, p).value;
      NodeAtPruned(n, p);
      HoldsKey(m);
      var q :| Find(m, q).Some?;
      FindConcat(n, p, q);
      assert p <= p + q;
    }
    if k :| p <= k && Find(n, k).Some? {
      assert k == p + k[|p|..];
      FindConcat(n, p, k[|p|..]);
    }
  }

  // ---------------------------------------------------------------------------
  // Counting.

  lemma {:induction false} SumConcat(a: seq<nat>, b: seq<nat>)
    ensures Sum(a + b) == Sum(a) + Sum(b)
    decreases |b|
  {
    if b == [] {
      assert a + b == a;
    } else {
      var b' := b[..|b| - 1];
      assert (a + b)[..|a + b| - 1] == a + b';
      SumConcat(a, b');
    }
  }

  /** Replacing one term changes the sum by the difference. */
  lemma {:induction false} SumReplace(s: seq<nat>, i: nat, x: nat)
    requires i < |s|
    ensures Sum(s[i := x]) + s[i] == Sum(s) + x
  {
    assert s == s[..i] + [s[i]] + s[i + 1..];
    assert s[i := x] == s[..i] + [x] + s[i + 1..];
    SumConcat(s[..i] + [x], s[i + 1..]);
    SumConcat(s[..i] + [s[i]], s[i + 1..]);
    SumConcat(s[..i], [x]);
    SumConcat(s[..i], [s[i]]);
  }

  /** Dropping one term lowers the sum by that term. */
  lemma {:induction false} SumDelete(s: seq<nat>, i: nat)
    requires i < |s|
    ensures Sum(s[..i] + s[i + 1..]) + s[i] == Sum(s)
  {
    assert s == s[..i] + [s[i]] + s[i + 1..];
    SumConcat(s[..i], s[i + 1..]);
    SumConcat(s[..i] + [s[i]], s[i + 1..]);
    SumConcat(s[..i], [s[i]]);
  }

  /** Appending a child adds its count. */
  lemma CountAppend<V>(v: Option<V>, cs: seq<(char, Node<V>)>, c: char, m: Node<V>)
    ensures Count(Node(v, cs + [(c, m)])) == Count(Node(v, cs)) + Count(m)
  {
    var s := Counts(Node(v, cs));
    assert Counts(Node(v, cs + [(c, m)])) == s + [Count(m)];
    assert (s + [Count(m)])[..|s|] == s;
  }

  /** Replacing a child changes the count by the difference of the two subtrees. */
  lemma CountReplace<V>(v: Option<V>, cs: seq<(char, Node<V>)>, i: nat, c: char, m: Node<V>)
    requires i < |cs|
    ensures Count(Node(v, cs[i := (c, m)])) + Count(cs[i].1) == Count(Node(v, cs)) + Count(m)
  {
    var s := Counts(Node(v, cs));
    assert Counts(Node(v, cs[i := (c, m)])) == s[i := Count(m)];
    SumReplace(s, i, Count(m));
  }

  /** Deleting a child lowers the count by that subtree's. */
  lemma CountDelete<V>(v: Option<V>, cs: seq<(char, Node<V>)>, i: nat)
    requires i < |cs|
    ensures Count(Node(v, cs[..i] + cs[i + 1..])) + Count(cs[i].1) == Count(Node(v, cs))
  {
    var s := Counts(Node(v, cs));
    assert Counts(Node(v, cs[..i] + cs[i + 1..])) == s[..i] + s[i + 1..];
    SumDelete(s, i);
  }

  /** A sum is zero exactly when every term is. */
  lemma {:induction false} SumZero(s: seq<nat>)
    ensures Sum(s) == 0 <==> forall i :: 0 <= i < |s| ==> s[i] == 0
    decreases |s|
  {
    if s != [] {
      SumZero(s[..|s| - 1]);
      assert forall i :: 0 <= i < |s| - 1 ==> s[..|s| - 1][i] == s[i];
    }
  }

  /** A tree counts no value exactly when no key reads a value from it. */
  lemma {:induction false} CountZeroIffNoKey<V>(n: Node<V>)
    requires Wf(n)
    ensures Count(n) == 0 <==> forall k :: Find(n, k).None?
    decreases n
  {
    SumZero(Counts(n));
    if Count(n) == 0 {
      forall k ensures Find(n, k).None? {
        if k != [] {
          match Child(n.children, k[0])
          case None =>
          case Some(m) =>
            var j :| 0 <= j < |n.children| && n.children[j].0 == k[0] && n.children[j].1 == m;
            assert Counts(n)[j] == 0;
            CountZeroIffNoKey(m);
            assert Find(n, k) == Find(m, k[1..]);
        }
      }
    } else if n.value.Some? {
      assert Find(n, []).Some?;
    } else {
      var j :| 0 <= j < |n.children| && Counts(n)[j] != 0;
      var (c, m) := n.children[j];
      CountZeroIffNoKey(m);
      var q :| Find(m, q).Some?;
      assert Child(n.children, c) == Some(m);
      assert Find(n, [c] + q) == Find(m, q);
    }
  }
}
