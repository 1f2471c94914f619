/** The effect of `Trie.put` on the node tree (trie.py:12-21). */
module TrieInsert {
  import opened Wrappers
  import opened TrieNodes

  /** The tree after `put(key, v)`: along `key`, `setdefault` creates each missing
      node at the end of its parent's children, and the last node's value is
      overwritten by `v`, even when `v` is None. */
  function Insert<V>(n: Node<V>, key: string, v: Option<V>): Node<V>
    decreases |key|
  {
    if key == [] then Node(v, n.children)
    else
      var i := Index(n.children, key[0]);
      if i < 0 then Node(n.value, n.children + [(key[0], Insert(Empty(), key[1..], v))])
      else Node(n.value, n.children[i := (key[0], Insert(n.children[i].1, key[1..], v))])
  }

  /** One level of `put`: the child under `key[0]` is the old one (or a fresh node)
      with the rest of the key inserted; every other child and the node's own value
      are unchanged. */
  lemma InsertChild<V>(n: Node<V>, key: string, v: Option<V>, d: char)
    requires Distinct(n.children) && key != []
    ensures Insert(n, key, v).value == n.value
    ensures Distinct(Insert(n, key, v).children)
    ensures Child(Insert(n, key, v).children, d)
         == if d == key[0] then Some(Insert(ChildOrEmpty(n.children, key[0]), key[1..], v))
            else Child(n.children, d)
  {
    var cs := n.children;
    var i := Index(cs, key[0]);
    if i < 0 {
      ChildAppend(cs, key[0], Insert(Empty(), key[1..], v), d);
    } else {
      ChildReplace(cs, i, Insert(cs[i].1, key[1..], v), d);
    }
  }

  /** `put` keeps the characters of every children mapping distinct. */
  lemma {:induction false} InsertWf<V>(n: Node<V>, key: string, v: Option<V>)
    requires Wf(n)
    ensures Wf(Insert(n, key, v))
    decreases |key|
  {
    if key != [] {
      var cs := n.children;
      var i := Index(cs, key[0]);
      var m := if i < 0 then Empty() else cs[i].1;
      InsertWf(m, key[1..], v);
      InsertChild(n, key, v, key[0]);
      var cs' := Insert(n, key, v).children;
      forall j | 0 <= j < |cs'| ensures Wf(cs'[j].1) {
        if i < 0 { if j < |cs| { assert cs'[j] == cs[j]; } }
        else if j != i { assert cs'[j] == cs[j]; }
      }
    }
  }

  /** Last write wins: after `put(key, v)`, `get(key)` is `v`, and every other key
      reads what it read before. */
  lemma {:induction false} FindInsert<V>(n: Node<V>, key: string, v: Option<V>, k: string)
    requires Wf(n)
    ensures Find(Insert(n, key, v), k) == if k == key then v else Find(n, k)
    decreases |key|
  {
    if key != [] && k != [] {
      InsertChild(n, key, v, k[0]);
      if k[0] == key[0] {
        var m := ChildOrEmpty(n.children, key[0]);
        if Child(n.children, key[0]).Some? {
          var j :| 0 <= j < |n.children| && n.children[j].0 == key[0] && n.children[j].1 == m;
        }
        FindInsert(m, key[1..], v, k[1..]);
        assert k == key <==> k[1..] == key[1..];
      }
    }
  }

  /** The paths after `put(key, v)` are the old ones and the prefixes of `key`. */
  lemma {:induction false} NodeAtInsert<V>(n: Node<V>, key: string, v: Option<V>, p: string)
    requires Wf(n)
    ensures NodeAt(Insert(n, key, v), p).Some? <==> NodeAt(n, p).Some? || p <= key
    decreases |key|
  {
    if p != [] && key != [] {
      InsertChild(n, key, v, p[0]);
      if p[0] == key[0] {
        var m := ChildOrEmpty(n.children, key[0]);
        if Child(n.children, key[0]).Some? {
          var j :| 0 <= j < |n.children| && n.children[j].0 == key[0] && n.children[j].1 == m;
        } else {
          assert p[1..] != [] ==> NodeAt(m, p[1..]).None?;
        }
        NodeAtInsert(m, key[1..], v, p[1..]);
        assert p <= key <==> p[1..] <= key[1..];
      }
    }
  }

  /** `size` bookkeeping: `put(key, v)` adds one stored value when `v` is present and
      removes one when the old value was present. */
  lemma {:induction false} CountInsert<V>(n: Node<V>, key: string, v: Option<V>)
    requires Wf(n)
    ensures Count(Insert(n, key, v))
         == Count(n) - (if Find(n, key).Some? then 1 else 0) + (if v.Some? then 1 else 0)
    decreases |key|
  {
    if key != [] {
      var cs := n.children;
      var i := Index(cs, key[0]);
      var n' := Insert(n, key, v);
      if i < 0 {
        CountInsert(Empty<V>(), key[1..], v);
        assert key[1..] != [] ==> NodeAt(Empty<V>(), key[1..]).None?;
        CountAppend(n.value, cs, key[0], Insert(Empty(), key[1..], v));
      } else {
        CountInsert(cs[i].1, key[1..], v);
        assert Child(cs, key[0]) == Some(cs[i].1);
        CountReplace(n.value, cs, i, key[0], Insert(cs[i].1, key[1..], v));
      }
    }
  }

  /** Inserting a present value never leaves a useless node behind. */
  lemma {:induction false} PrunedInsert<V>(n: Node<V>, key: string, v: Option<V>)
    requires Pruned(n) && v.Some?
    ensures Pruned(Insert(n, key, v)) && !Useless(Insert(n, key, v))
    decreases |key|
  {
    if key != [] {
      var cs := n.children;
      var i := Index(cs, key[0]);
      var m := if i < 0 then Empty() else cs[i].1;
      PrunedInsert(m, key[1..], v);
      var cs' := Insert(n, key, v).children;
      forall j | 0 <= j < |cs'| ensures !Useless(cs'[j].1) && Pruned(cs'[j].1) {
        if i < 0 { if j < |cs| { assert cs'[j] == cs[j]; } }
        else if j != i { assert cs'[j] == cs[j]; }
      }
    }
  }
}
