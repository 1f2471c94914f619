/** The effect of `Trie.delete` and its nested `_delete` on the node tree (trie.py:34-57). */
module TrieDelete {
  import opened Wrappers
  import opened TrieNodes

  /** What `_delete` leaves behind at one node: the node itself afterwards, whether a
      value was cleared below it (the moment `size` is decremented), and the boolean
      it returns, which tells the parent to drop this node. */
  datatype Removal<V> = Removal(node: Node<V>, removed: bool, prune: bool)

  /** `_delete(n, depth)` with `key` standing for the characters from `depth` on. */
  function Remove<V>(n: Node<V>, key: string): Removal<V>
    decreases |key|
  {
    if key == [] then
      if n.value.Some? then Removal(Node(None, n.children), true, |n.children| == 0)
      else Removal(n, false, false)
    else
      var i := Index(n.children, key[0]);
      if i < 0 then Removal(n, false, false)
      else
        var r := Remove(n.children[i].1, key[1..]);
        if r.prune then
          var cs := n.children[..i] + n.children[i + 1..];
          Removal(Node(n.value, cs), r.removed, |cs| == 0 && n.value.None?)
        else
          Removal(Node(n.value, n.children[i := (key[0], r.node)]), r.removed, false)
  }

  /** Deleting a key that reads no value changes nothing and returns False. */
  lemma {:induction false} RemoveAbsent<V>(n: Node<V>, key: string)
    requires Find(n, key).None?
    ensures Remove(n, key) == Removal(n, false, false)
    decreases |key|
  {
    if key != [] {
      var i := Index(n.children, key[0]);
      if 0 <= i {
        assert Child(n.children, key[0]) == Some(n.children[i].1);
        RemoveAbsent(n.children[i].1, key[1..]);
        assert n.children[i := (key[0], n.children[i].1)] == n.children;
      }
    }
  }

  /** A value is cleared exactly when the key read one, and the node asks to be
      dropped exactly when a value was cleared and the node is left useless. */
  lemma {:induction false} RemoveSignals<V>(n: Node<V>, key: string)
    requires Wf(n)
    ensures Remove(n, key).removed <==> Find(n, key).Some?
    ensures Remove(n, key).prune <==> Remove(n, key).removed && Useless(Remove(n, key).node)
    decreases |key|
  {
    if key != [] {
      var i := Index(n.children, key[0]);
      if 0 <= i {
        assert Child(n.children, key[0]) == Some(n.children[i].1);
        RemoveSignals(n.children[i].1, key[1..]);
        var r := Remove(n.children[i].1, key[1..]);
        if !r.prune {
          assert |n.children[i := (key[0], r.node)]| > 0;
        }
      }
    }
  }

  /** One level of `_delete`: the child under `key[0]` is replaced by what the
      deletion left of it, or removed from the children when it signalled so; all
      other children and the node's own value stay as they were. */
  lemma RemoveChild<V>(n: Node<V>, key: string, d: char)
    requires Distinct(n.children) && key != []
    ensures Remove(n, key).node.value == n.value
    ensures Distinct(Remove(n, key).node.children)
    ensures Child(Remove(n, key).node.children, d)
         == if d == key[0] && Child(n.children, d).Some? then
              var r := Remove(Child(n.children, d).value, key[1..]);
              if r.prune then None else Some(r.node)
            else Child(n.children, d)
  {
    var cs := n.children;
    var i := Index(cs, key[0]);
    if i < 0 {
      assert Remove(n, key) == Removal(n, false, false);
    } else {
      assert Child(cs, key[0]) == Some(cs[i].1);
      var r := Remove(cs[i].1, key[1..]);
      if r.prune {
        assert Remove(n, key).node == Node(n.value, cs[..i] + cs[i + 1..]);
        ChildDelete(cs, i, d);
      } else {
        assert Remove(n, key).node == Node(n.value, cs[i := (key[0], r.node)]);
        ChildReplace(cs, i, r.node, d);
      }
    }
  }

  /** `delete` keeps the characters of every children mapping distinct. */
  lemma {:induction false} RemoveWf<V>(n: Node<V>, key: string)
    requires Wf(n)
    ensures Wf(Remove(n, key).node)
    decreases |key|
  {
    if key != [] {
      var cs := n.children;
      var i := Index(cs, key[0]);
      if 0 <= i {
        RemoveChild(n, key, key[0]);
        RemoveWf(cs[i].1, key[1..]);
        var r := Remove(cs[i].1, key[1..]);
        var cs' := Remove(n, key).node.children;
        forall j | 0 <= j < |cs'| ensures Wf(cs'[j].1) {
          if r.prune {
            if j < i { assert cs'[j] == cs[j]; } else { assert cs'[j] == cs[j + 1]; }
          } else if j != i {
            assert cs'[j] == cs[j];
          }
        }
      }
    }
  }

  /** After `delete(key)`, `get(key)` reads None and every other key reads what it
      read before: pruning only drops nodes that hold no key. */
  lemma {:induction false} FindRemove<V>(n: Node<V>, key: string, k: string)
    requires Wf(n)
    ensures Find(Remove(n, key).node, k) == if k == key then None else Find(n, k)
    decreases |key|
  {
    if key == [] {
      if k != [] && n.value.Some? {
        assert Find(Remove(n, key).node, k) == Find(Node(n.value, n.children), k);
      }
    } else if k != [] {
      RemoveChild(n, key, k[0]);
      if k[0] == key[0] && Child(n.children, k[0]).Some? {
        var m := Child(n.children, k[0]).value;
        var j :| 0 <= j < |n.children| && n.children[j].0 == key[0] && n.children[j].1 == m;
        var r := Remove(m, key[1..]);
        FindRemove(m, key[1..], k[1..]);
        RemoveSignals(m, key[1..]);
        assert k == key <==> k[1..] == key[1..];
        if r.prune {
          assert Useless(r.node);
          assert Find(r.node, k[1..]).None? by {
            assert k[1..] != [] ==> NodeAt(r.node, k[1..]).None?;
          }
        }
      }
    }
  }

  /** `size` bookkeeping: the tree loses exactly the one value `delete` clears. */
  lemma {:induction false} CountRemove<V>(n: Node<V>, key: string)
    requires Wf(n)
    ensures Count(Remove(n, key).node) + (if Remove(n, key).removed then 1 else 0) == Count(n)
    decreases |key|
  {
    var cs := n.children;
    if key == [] {
      assert Counts(Remove(n, key).node) == Counts(n);
    } else {
      var i := Index(cs, key[0]);
      if 0 <= i {
        var r := Remove(cs[i].1, key[1..]);
        CountRemove(cs[i].1, key[1..]);
        if r.prune {
          RemoveSignals(cs[i].1, key[1..]);
          assert Counts(r.node) == [];
          CountDelete(n.value, cs, i);
        } else {
          CountReplace(n.value, cs, i, key[0], r.node);
        }
      }
    }
  }

  /** Deletion keeps a pruned tree pruned: the nodes it empties are the ones it drops. */
  lemma {:induction false} PrunedRemove<V>(n: Node<V>, key: string)
    requires Wf(n) && Pruned(n)
    ensures Pruned(Remove(n, key).node)
    decreases |key|
  {
    if key != [] {
      var cs := n.children;
      var i := Index(cs, key[0]);
      if 0 <= i {
        var r := Remove(cs[i].1, key[1..]);
        PrunedRemove(cs[i].1, key[1..]);
        RemoveSignals(cs[i].1, key[1..]);
        if !r.removed {
          RemoveAbsent(cs[i].1, key[1..]);
        }
        var cs' := Remove(n, key).node.children;
        forall j | 0 <= j < |cs'| ensures !Useless(cs'[j].1) && Pruned(cs'[j].1) {
          if r.prune {
            if j < i { assert cs'[j] == cs[j]; } else { assert cs'[j] == cs[j + 1]; }
          } else if j != i {
            assert cs'[j] == cs[j];
          }
        }
      }
    }
  }

  /** A second `delete` of the same key returns False and changes nothing. */
  lemma RemoveTwice<V>(n: Node<V>, key: string)
    requires Wf(n)
    ensures var once := Remove(n, key).node; Remove(once, key) == Removal(once, false, false)
  {
    FindRemove(n, key, key);
    RemoveAbsent(Remove(n, key).node, key);
  }
}
