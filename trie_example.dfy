/** trie.py's example run (lines 111-124), replayed on the model: the trie it builds
    is written out node by node, and each printed answer is proved. */
module TrieExample {
  import opened Wrappers
  import opened TrieNodes
  import opened TrieInsert
  import opened TrieDelete
  import opened TrieKeys
  import opened Tries

  /** Putting a value under a fresh path yields one key, the path itself. */
  lemma {:induction false} KeysFresh<V>(s: string, v: V, path: string)
    ensures TrieKeys.Keys(Insert(Empty(), s, Some(v)), path) == [path + s]
    decreases |s|
  {
    if s == [] {
      assert KeysBelow(Node(Some(v), []), path) == [];
      assert path + s == path;
    } else {
      var m := Insert(Empty(), s[1..], Some(v));
      assert Insert(Empty(), s, Some(v)) == Node(None, [(s[0], m)]);
      KeysOne(None, s[0], m, path);
      KeysFresh(s[1..], v, path + [s[0]]);
      assert path + [s[0]] + s[1..] == path + s;
    }
  }

  function Leaf(v: int): Node<int> {
    Node(Some(v), [])
  }

  /** The node of "a" once "apple" is stored and "app" holds `app`. */
  function AppBranch(app: Option<int>): Node<int> {
    Node(None, [('p', Node(None, [('p', Node(app, [('l', Insert(Empty(), "e", Some(1)))]))]))])
  }

  /** The node of "ba" once "banana" and "bat" are stored. */
  function BaBranch(): Node<int> {
    Node(None, [('n', Insert(Empty(), "ana", Some(3))), ('t', Leaf(4))])
  }

  /** The example's root after its four puts, with "app" holding `app`. */
  function Stored(app: Option<int>): Node<int> {
    Node(None, [('a', AppBranch(app)), ('b', Node(None, [('a', BaBranch())]))])
  }

  lemma PutApple()
    ensures Insert(Empty(), "apple", Some(1)) == Node(None, [('a', AppBranch(None))])
  {
    assert Insert(Empty<int>(), "le", Some(1)) == Node(None, [('l', Insert(Empty(), "e", Some(1)))]);
    assert Insert(Empty<int>(), "ple", Some(1)) == Node(None, [('p', Node(None, [('l', Insert(Empty(), "e", Some(1)))]))]);
    assert Insert(Empty<int>(), "pple", Some(1)) == AppBranch(None);
  }

  /** "app" is a prefix of "apple": the put only sets the value of an existing node. */
  lemma PutApp()
    ensures Insert(Node(None, [('a', AppBranch(None))]), "app", Some(2)) == Node(None, [('a', AppBranch(Some(2)))])
  {
    var l := [('l', Insert(Empty(), "e", Some(1)))];
    assert Insert(Node(None, l), "", Some(2)) == Node(Some(2), l);
    assert "p"[1..] == "";
    assert Insert(Node(None, [('p', Node(None, l))]), "p", Some(2)) == Node(None, [('p', Node(Some(2), l))]);
    assert "pp"[1..] == "p";
    assert Insert(AppBranch(None), "pp", Some(2)) == AppBranch(Some(2));
    assert "app"[1..] == "pp";
  }

  /** "banana" starts a second child of the root, after the first. */
  lemma PutBanana()
    ensures Insert(Node(None, [('a', AppBranch(Some(2)))]), "banana", Some(3))
         == Node(None, [('a', AppBranch(Some(2))), ('b', Insert(Empty(), "anana", Some(3)))])
  {}

  /** "bat" shares "ba" with "banana" and adds a second child there. */
  lemma PutBat()
    ensures Insert(Node(None, [('a', AppBranch(Some(2))), ('b', Insert(Empty(), "anana", Some(3)))]), "bat", Some(4))
         == Stored(Some(2))
  {
    assert Insert(Empty<int>(), "anana", Some(3)) == Node(None, [('a', Insert(Empty(), "nana", Some(3)))]);
    assert Insert(Empty<int>(), "nana", Some(3)) == Node(None, [('n', Insert(Empty(), "ana", Some(3)))]);
    assert "t"[1..] == "";
    assert Insert(Empty<int>(), "", Some(4)) == Leaf(4);
    assert Insert(Insert(Empty<int>(), "nana", Some(3)), "t", Some(4)) == BaBranch();
    assert "at"[1..] == "t";
    assert Insert(Insert(Empty<int>(), "anana", Some(3)), "at", Some(4)) == Node(None, [('a', BaBranch())]);
    assert "bat"[1..] == "at";
  }

  lemma AppKeys(app: Option<int>)
    ensures TrieKeys.Keys(AppBranch(app), "a") == (if app.Some? then ["app"] else []) + ["apple"]
  {
    var e := Insert(Empty(), "e", Some(1));
    KeysFresh("e", 1, "appl");
    assert "app" + ['l'] == "appl" && "appl" + "e" == "apple";
    KeysOne(app, 'l', e, "app");
    assert "ap" + ['p'] == "app" && "a" + ['p'] == "ap";
    KeysOne(None, 'p', Node(app, [('l', e)]), "ap");
    KeysOne(None, 'p', Node(None, [('p', Node(app, [('l', e)]))]), "a");
  }

  lemma BaKeys()
    ensures TrieKeys.Keys(BaBranch(), "ba") == ["banana", "bat"]
  {
    KeysFresh("ana", 3, "ban");
    assert "ba" + ['n'] == "ban" && "ban" + "ana" == "banana" && "ba" + ['t'] == "bat";
    assert KeysBelow(Leaf(4), "bat") == [];
    KeysPair('n', Insert(Empty(), "ana", Some(3)), 't', Leaf(4), "ba");
  }

  /** `keys()` on the example trie, in the order the children were created. */
  lemma StoredKeys(app: Option<int>)
    ensures TrieKeys.Keys(Stored(app), []) == (if app.Some? then ["app"] else []) + ["apple", "banana", "bat"]
  {
    AppKeys(app);
    BaKeys();
    assert "b" + ['a'] == "ba" && [] + ['b'] == "b" && [] + ['a'] == "a";
    KeysOne(None, 'a', BaBranch(), "b");
    KeysPair('a', AppBranch(app), 'b', Node(None, [('a', BaBranch())]), "");
  }

  lemma FindApp(app: Option<int>)
    ensures Find(Stored(app), "app") == app
  {
    var n := Node(app, [('l', Insert(Empty(), "e", Some(1)))]);
    assert "p"[1..] == "" && "pp"[1..] == "p" && "app"[1..] == "pp";
    assert NodeAt(Node(None, [('p', n)]), "p") == Some(n);
    assert NodeAt(AppBranch(app), "pp") == Some(n);
  }

  lemma ReachBa()
    ensures NodeAt(Stored(Some(2)), "ba") == Some(BaBranch())
  {
    assert "ba"[1..] == "a" && "a"[1..] == "";
    assert NodeAt(Node(None, [('a', BaBranch())]), "a") == Some(BaBranch());
  }

  /** Deleting "app" clears its value; its node keeps the child on the way to "apple". */
  lemma RemoveApp()
    ensures Remove(Stored(Some(2)), "app") == Removal(Stored(None), true, false)
  {
    var l := [('l', Insert(Empty(), "e", Some(1)))];
    assert Remove(Node(Some(2), l), "") == Removal(Node(None, l), true, false);
    assert "p"[1..] == "" && "pp"[1..] == "p" && "app"[1..] == "pp";
    assert Remove(Node(None, [('p', Node(Some(2), l))]), "p") == Removal(Node(None, [('p', Node(None, l))]), true, false);
    assert Remove(AppBranch(Some(2)), "pp") == Removal(AppBranch(None), true, false);
  }

  /** Of the example's keys, only "app" is a prefix of "application". */
  lemma OnlyApp(q: string)
    requires q in ["app", "apple", "banana", "bat"] && q <= "application"
    ensures q == "app"
  {
    assert "apple"[4] != "application"[4];
    assert "banana"[0] != "application"[0] && "bat"[0] != "application"[0];
  }

  /** The example's four puts: ("apple", 1), ("app", 2), ("banana", 3), ("bat", 4). */
  method ExamplePuts() returns (t: Trie<int>)
    ensures fresh(t) && t.Valid() && t.exact
    ensures t.root == Stored(Some(2))
  {
    t := new Trie<int>();
    var r := t.Put("apple", Some(1));
    PutApple();
    r := t.Put("app", Some(2));
    PutApp();
    r := t.Put("banana", Some(3));
    PutBanana();
    r := t.Put("bat", Some(4));
    PutBat();
  }

  /** The queries the example prints before its delete. */
  method DemoQueries() {
    var t := ExamplePuts();
    var ks := t.Keys();
    StoredKeys(Some(2));
    assert ks == ["app", "apple", "banana", "bat"];

    var below := t.KeysWithPrefix("ba");
    ReachBa();
    BaKeys();
    assert below == ["banana", "bat"];

    var g := t.Get("app");
    FindApp(Some(2));
    assert g == Ok(Some(2));

    var lp := t.LongestPrefixOf("application");
    assert "application"[..3] == "app";
    assert lp.value != [];
    OnlyApp(lp.value);
    assert lp == Ok("app");
  }

  /** `delete("app")` answers false, because the root keeps its children; the other
      keys remain and the trie is not empty. */
  method DemoDeleteApp() {
    var t := ExamplePuts();
    FindApp(Some(2));
    var d := t.Delete("app");
    RemoveApp();
    assert d == Ok(false);
    var ks := t.Keys();
    StoredKeys(None);
    assert ks == ["apple", "banana", "bat"];
    var e := t.IsEmpty();
    assert "apple" in ks;
    assert !e;
  }

  /** "apple" under "app": deleting "apple" prunes its tail up to the node of "app",
      which keeps its value, so the call answers false although a key was removed. */
  method DemoDeleteApple() {
    var t := new Trie<int>();
    var r := t.Put("apple", Some(1));
    r := t.Put("app", Some(2));
    assert Find(t.root, "apple") == Some(1) && Find(t.root, "app") == Some(2);
    var d := t.Delete("apple");
    assert Find(t.root, "apple").None? && Find(t.root, "app") == Some(2);
    assert d == Ok(false);
  }
}
