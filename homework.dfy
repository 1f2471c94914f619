/** task_1.py's `Homework`: two queries over a `Trie`. Python gets them by subclassing;
    here they take the trie as a parameter. */
module Homework {
  import opened Wrappers
  import opened TrieNodes
  import opened TrieKeys
  import opened Tries

  /** `w.endswith(p)`. */
  predicate EndsWith(w: string, p: string) {
    |p| <= |w| && w[|w| - |p|..] == p
  }

  /** `sum(1 for w in ws if w.endswith(p))`. */
  function SuffixCount(ws: seq<string>, p: string): nat {
    if ws == [] then 0
    else SuffixCount(ws[..|ws| - 1], p) + if EndsWith(ws[|ws| - 1], p) then 1 else 0
  }

  /** Every word ends with the empty pattern, so it counts every word. */
  lemma {:induction false} SuffixCountEmpty(ws: seq<string>)
    ensures SuffixCount(ws, []) == |ws|
    decreases |ws|
  {
    if ws != [] {
      SuffixCountEmpty(ws[..|ws| - 1]);
      assert EndsWith(ws[|ws| - 1], []);
    }
  }

  /** Dropping the last word of a list without duplicates leaves one without
      duplicates that does not contain that word. */
  lemma NoDupInit(ws: seq<string>)
    requires NoDup(ws) && ws != []
    ensures NoDup(ws[..|ws| - 1]) && ws[|ws| - 1] !in ws[..|ws| - 1]
  {
    var ws' := ws[..|ws| - 1];
    forall i, j | 0 <= i < j < |ws'| ensures ws'[i] != ws'[j] {
      assert ws'[i] == ws[i] && ws'[j] == ws[j];
    }
    forall i | 0 <= i < |ws'| ensures ws'[i] != ws[|ws| - 1] {
      assert ws'[i] == ws[i];
    }
  }

  /** The distinct words of `ws` that end with `p`. */
  ghost function Matching(ws: seq<string>, p: string): set<string> {
    set w | w in ws && EndsWith(w, p)
  }

  /** Appending a word adds it to the matching words exactly when it matches. */
  lemma MatchingSnoc(ws: seq<string>, last: string, p: string)
    ensures Matching(ws + [last], p) == Matching(ws, p) + if EndsWith(last, p) then {last} else {}
  {
    assert forall w :: w in ws + [last] <==> w in ws || w == last;
  }

  /** Over a list without duplicates the sum counts the distinct words that end
      with `p`. */
  lemma {:induction false} SuffixCountDistinct(ws: seq<string>, p: string)
    requires NoDup(ws)
    ensures SuffixCount(ws, p) == |Matching(ws, p)|
    decreases |ws|
  {
    if ws == [] {
      assert Matching(ws, p) == {};
    } else {
      var ws' := ws[..|ws| - 1];
      var last := ws[|ws| - 1];
      NoDupInit(ws);
      SuffixCountDistinct(ws', p);
      assert ws == ws' + [last];
      MatchingSnoc(ws', last, p);
      assert last !in Matching(ws', p);
    }
  }

  /** `count_words_with_suffix(pattern)`: how many of the stored keys end with
      `pattern`; the empty pattern counts them all. */
  method CountWordsWithSuffix<V>(t: Trie<V>, pattern: string) returns (c: nat)
    requires t.Valid()
    ensures c == |Matching(TrieKeys.Keys(t.root, []), pattern)|
    ensures pattern == [] ==> c == |TrieKeys.Keys(t.root, [])|
    ensures pattern == [] && t.exact ==> c == t.size
  {
    var words := t.Keys();
    c := SuffixCount(words, pattern);
    SuffixCountDistinct(words, pattern);
    SuffixCountEmpty(words);
  }

  /** `has_prefix(prefix)`: whether the path of `prefix` exists, whatever the values
      on it. The empty prefix always has one; while every `put` stored a present
      value, a non-empty path exists exactly when some stored key extends it. */
  method HasPrefix<V>(t: Trie<V>, prefix: string) returns (b: bool)
    requires t.Valid()
    ensures b <==> NodeAt(t.root, prefix).Some?
    ensures prefix == [] ==> b
    ensures t.exact && prefix != [] ==> (b <==> exists k :: prefix <= k && Find(t.root, k).Some?)
  {
    if t.exact && prefix != [] {
      PathIffKeyBelow(t.root, prefix);
    }
    var current := t.root;
    var i := 0;
    while i < |prefix|
      invariant i <= |prefix|
      invariant NodeAt(t.root, prefix[..i]) == Some(current)
    {
      var next := Child(current.children, prefix[i]);
      NodeAtSnoc(t.root, prefix[..i], prefix[i]);
      assert prefix[..i + 1] == prefix[..i] + [prefix[i]];
      if next.None? {
        NodeAtConcat(t.root, prefix[..i + 1], prefix[i + 1..]);
        assert prefix == prefix[..i + 1] + prefix[i + 1..];
        return false;
      }
      current := next.value;
      i := i + 1;
    }
    assert prefix[..i] == prefix;
    return true;
  }

  /** The keys of task_1.py's demonstration. */
  predicate IsDemoWord(k: string) {
    k == "apple" || k == "application" || k == "banana" || k == "cat"
  }

  /** `n` stores exactly the demo keys. */
  ghost predicate DemoStored(n: Node<int>) {
    forall k :: Find(n, k).Some? <==> k == "apple" || k == "application" || k == "banana" || k == "cat"
  }

  /** The trie of task_1.py's demonstration: each demo word stored under its position. */
  method DemoTrie() returns (t: Trie<int>)
    ensures fresh(t) && t.Valid() && t.exact
    ensures DemoStored(t.root)
  {
    t := new Trie<int>();
    assert forall k :: Find(t.root, k).None? by {
      forall k ensures Find(t.root, k).None? {
        if k != [] { assert NodeAt(t.root, k).None?; }
      }
    }
    var r := t.Put("apple", Some(0));
    assert forall k :: Find(t.root, k).Some? <==> k == "apple";
    r := t.Put("application", Some(1));
    assert forall k :: Find(t.root, k).Some? <==> k == "apple" || k == "application";
    r := t.Put("banana", Some(2));
    assert forall k :: Find(t.root, k).Some? <==> k == "apple" || k == "application" || k == "banana";
    r := t.Put("cat", Some(3));
  }

  /** Of the demo keys, exactly `w` ends with `p`. */
  ghost predicate OnlyEndsWith(w: string, p: string) {
    forall k :: IsDemoWord(k) ==> (EndsWith(k, p) <==> k == w)
  }

  lemma DemoEndsE()
    ensures OnlyEndsWith("apple", "e")
  {
    assert "application"[10..] == "n" && "banana"[5..] == "a" && "cat"[2..] == "t";
  }

  lemma DemoEndsIon()
    ensures OnlyEndsWith("application", "ion")
  {
    assert "apple"[2..] == "ple" && "banana"[3..] == "ana";
  }

  lemma DemoEndsA()
    ensures OnlyEndsWith("banana", "a")
  {
    assert "apple"[4..] == "e" && "application"[10..] == "n" && "cat"[2..] == "t";
  }

  lemma DemoEndsAt()
    ensures OnlyEndsWith("cat", "at")
  {
    assert "apple"[3..] == "le" && "application"[9..] == "on" && "banana"[4..] == "na";
  }

  /** With the demo keys stored, the keys ending with `p` are exactly `w`. */
  lemma DemoSuffixSet(ks: seq<string>, p: string, w: string)
    requires forall k :: k in ks <==> IsDemoWord(k)
    requires IsDemoWord(w) && OnlyEndsWith(w, p)
    ensures Matching(ks, p) == {w}
  {
  }

  /** The key list of a tree holding exactly the demo keys holds exactly those. */
  lemma DemoKeys(n: Node<int>)
    requires Wf(n)
    requires DemoStored(n)
    ensures forall k :: k in TrieKeys.Keys(n, []) <==> IsDemoWord(k)
  {
    forall k ensures k in TrieKeys.Keys(n, []) <==> IsDemoWord(k) {
      KeysMember(n, [], k);
      assert k[0..] == k;
    }
  }

  /** With the demo keys stored, the path of a prefix `p` of demo word `w` exists. */
  lemma DemoPath(n: Node<int>, p: string, w: string)
    requires Pruned(n) && p != []
    requires DemoStored(n)
    requires IsDemoWord(w) && p <= w
    ensures NodeAt(n, p).Some?
  {
    PathIffKeyBelow(n, p);
    assert Find(n, w).Some?;
  }

  /** With the demo keys stored, no path spells "bat". */
  lemma DemoNoBat(n: Node<int>)
    requires Pruned(n)
    requires DemoStored(n)
    ensures NodeAt(n, "bat").None?
  {
    PathIffKeyBelow(n, "bat");
    forall k | "bat" <= k ensures !IsDemoWord(k) {
      assert k[0] == 'b' && k[2] == 't';
    }
  }

  /** task_1.py's check of `count_words_with_suffix` for pattern `p`, whose one
      matching demo key is `w`. */
  method DemoSuffixCount(p: string, w: string) returns (c: nat)
    requires IsDemoWord(w) && OnlyEndsWith(w, p)
    ensures c == 1
  {
    var t := DemoTrie();
    DemoKeys(t.root);
    DemoSuffixSet(TrieKeys.Keys(t.root, []), p, w);
    c := CountWordsWithSuffix(t, p);
  }

  /** task_1.py's four checks of `count_words_with_suffix`. */
  method DemoSuffixCounts() {
    DemoEndsE();
    var c := DemoSuffixCount("e", "apple");
    DemoEndsIon();
    c := DemoSuffixCount("ion", "application");
    DemoEndsA();
    c := DemoSuffixCount("a", "banana");
    DemoEndsAt();
    c := DemoSuffixCount("at", "cat");
  }

  /** task_1.py's checks of `has_prefix`. */
  method DemoHasPrefix() {
    var t := DemoTrie();
    DemoPath(t.root, "app", "apple");
    DemoNoBat(t.root);
    DemoPath(t.root, "ban", "banana");
    DemoPath(t.root, "ca", "cat");
    var b := HasPrefix(t, "app");
    assert b;
    b := HasPrefix(t, "bat");
    assert !b;
    b := HasPrefix(t, "ban");
    assert b;
    b := HasPrefix(t, "ca");
    assert b;
  }
}
