/** task_2.py's `LongestCommonWord`: insert a list of strings, then walk down from the
    root while the path does not branch. Python gets it by subclassing `Trie`; here
    the method takes the trie as a parameter. */
module LongestCommonWord {
  import opened Wrappers
  import opened TrieNodes
  import opened TrieInsert
  import opened Tries

  /** The tree after `put(ss[i], i)` for each position `i`, in order. */
  function InsertAll(n: Node<int>, ss: seq<string>): Node<int> {
    if ss == [] then n
    else Insert(InsertAll(n, ss[..|ss| - 1]), ss[|ss| - 1], Some(|ss| - 1))
  }

  /** The characters the walk collects from `n`: one per node that has exactly one
      child and no value. */
  function CommonWalk<V>(n: Node<V>): string
    decreases n
  {
    if |n.children| == 1 && n.value.None? then [n.children[0].0] + CommonWalk(n.children[0].1)
    else []
  }

  ghost predicate IsCommonPrefix(p: string, ss: seq<string>) {
    forall s :: s in ss ==> p <= s
  }

  /** `p` is a prefix of every string in `ss`, and no longer string is. */
  ghost predicate IsLongestCommonPrefix(p: string, ss: seq<string>) {
    IsCommonPrefix(p, ss) && forall q :: IsCommonPrefix(q, ss) ==> |q| <= |p|
  }

  /** Some string of `ss` starts with `q`. */
  ghost predicate Extended(q: string, ss: seq<string>) {
    exists s :: s in ss && q <= s
  }

  ghost predicate NoneEmpty(ss: seq<string>) {
    forall j :: 0 <= j < |ss| ==> ss[j] != []
  }

  /** Where the insertion loop stops: the position of the first empty string, or
      `|ss|` when there is none. */
  function FirstEmpty(ss: seq<string>): (j: nat)
    ensures j <= |ss| && NoneEmpty(ss[..j])
    ensures j < |ss| ==> ss[j] == []
  {
    if ss == [] then 0
    else if ss[0] == [] then 0
    else
      var j := 1 + FirstEmpty(ss[1..]);
      assert forall k :: 1 <= k < j ==> ss[..j][k] == ss[1..][..j - 1][k - 1];
      j
  }

  /** The loop stops at `i` when the strings before it are non-empty and `i` is
      the end or an empty string. */
  lemma {:induction false} FirstEmptyAt(ss: seq<string>, i: nat)
    requires i <= |ss| && NoneEmpty(ss[..i]) && (i == |ss| || ss[i] == [])
    ensures FirstEmpty(ss) == i
  {
    var j := FirstEmpty(ss);
    forall k | 0 <= k < i ensures ss[k] != [] {
      assert ss[..i][k] == ss[k];
    }
    forall k | 0 <= k < j ensures ss[k] != [] {
      assert ss[..j][k] == ss[k];
    }
  }

  lemma {:induction false} InsertAllWf(n: Node<int>, ss: seq<string>)
    requires Wf(n)
    ensures Wf(InsertAll(n, ss))
    decreases |ss|
  {
    if ss != [] {
      InsertAllWf(n, ss[..|ss| - 1]);
      InsertWf(InsertAll(n, ss[..|ss| - 1]), ss[|ss| - 1], Some(|ss| - 1));
    }
  }

  /** The paths of the tree built from `ss` are the prefixes of its strings. */
  lemma {:induction false} InsertAllPath(ss: seq<string>, q: string)
    ensures NodeAt(InsertAll(Empty(), ss), q).Some? <==> q == [] || Extended(q, ss)
    decreases |ss|
  {
    if ss == [] {
      if q != [] {
        assert Child(Empty<int>().children, q[0]).None?;
      }
    } else {
      var init, last := ss[..|ss| - 1], ss[|ss| - 1];
      assert ss == init + [last];
      InsertAllPath(init, q);
      InsertAllWf(Empty(), init);
      NodeAtInsert(InsertAll(Empty(), init), last, Some(|ss| - 1), q);
      if Extended(q, ss) {
        var s :| s in ss && q <= s;
        if s != last {
          assert s in init;
        }
      }
      if Extended(q, init) {
        var s :| s in init && q <= s;
        assert s in ss;
      }
      if q <= last {
        assert last in ss;
      }
    }
  }

  /** After inserting `ss` into `n`, exactly the strings of `ss` and the keys `n`
      already held have values. */
  lemma {:induction false} InsertAllFindFrom(n: Node<int>, ss: seq<string>, q: string)
    requires Wf(n)
    ensures Find(InsertAll(n, ss), q).Some? <==> q in ss || Find(n, q).Some?
    decreases |ss|
  {
    if ss != [] {
      var init, last := ss[..|ss| - 1], ss[|ss| - 1];
      assert ss == init + [last];
      InsertAllFindFrom(n, init, q);
      InsertAllWf(n, init);
      FindInsert(InsertAll(n, init), last, Some(|ss| - 1), q);
    }
  }

  /** The values of the tree built from `ss` sit exactly at its strings. */
  lemma InsertAllFind(ss: seq<string>, q: string)
    ensures Find(InsertAll(Empty(), ss), q).Some? <==> q in ss
  {
    InsertAllFindFrom(Empty(), ss, q);
    if q != [] {
      assert Child(Empty<int>().children, q[0]).None?;
    }
  }

  /** The strings of `ss` that had no value in `n`: the ones whose `put` adds one
      to `size`. */
  ghost function Unset(n: Node<int>, ss: seq<string>): set<string> {
    set s | s in ss && Find(n, s).None?
  }

  /** Inserting `ss[i]` after `ss[..i]` adds one to `size` exactly when it gains a
      new element of `Unset`. */
  lemma UnsetStep(n: Node<int>, ss: seq<string>, i: nat)
    requires Wf(n) && i < |ss|
    ensures |Unset(n, ss[..i + 1])|
         == |Unset(n, ss[..i])| + if Find(InsertAll(n, ss[..i]), ss[i]).None? then 1 else 0
  {
    var s := ss[i];
    InsertAllFindFrom(n, ss[..i], s);
    assert forall w :: w in ss[..i + 1] <==> w in ss[..i] || w == s by {
      assert ss[..i + 1] == ss[..i] + [s];
    }
    var a := Unset(n, ss[..i]);
    if Find(InsertAll(n, ss[..i]), s).None? {
      assert Unset(n, ss[..i + 1]) == a + {s};
      assert s !in a;
    } else {
      assert Unset(n, ss[..i + 1]) == a;
    }
  }

  /** At a node with no value on a path every string extends, some string goes on. */
  lemma OneWayOn(ss: seq<string>, p: string, m: Node<int>)
    requires |ss| > 0 && NoneEmpty(ss)
    requires NodeAt(InsertAll(Empty(), ss), p) == Some(m) && IsCommonPrefix(p, ss)
    ensures m.value.Some? || |m.children| >= 1
  {
    var t := InsertAll(Empty(), ss);
    var s := ss[0];
    assert s in ss;
    if s == p {
      InsertAllFind(ss, p);
    } else {
      var c := s[|p|];
      assert p + [c] <= s;
      InsertAllPath(ss, p + [c]);
      NodeAtSnoc(t, p, c);
    }
  }

  /** Two strings that differ at position `k` share no prefix longer than `k`. */
  lemma Diverge(q: string, a: string, b: string, k: nat)
    requires q <= a && q <= b && k < |a| && k < |b| && a[k] != b[k]
    ensures |q| <= k
  {
  }

  /** A node with one child can only be left through that child's character. */
  lemma OnlyChild(cs: seq<(char, Node<int>)>, d: char)
    requires |cs| == 1 && Child(cs, d).Some?
    ensures d == cs[0].0
  {
  }

  /** Every string goes on through the one child of a valueless node on a common prefix. */
  lemma ForcedStep(ss: seq<string>, p: string, m: Node<int>, s: string)
    requires |ss| > 0 && NoneEmpty(ss)
    requires NodeAt(InsertAll(Empty(), ss), p) == Some(m) && IsCommonPrefix(p, ss)
    requires m.value.None? && |m.children| == 1 && s in ss
    ensures p + [m.children[0].0] <= s
  {
    InsertAllFind(ss, p);
    assert Find(InsertAll(Empty(), ss), p).None?;
    assert p <= s && s != p;
    var d := s[|p|];
    assert p + [d] <= s;
    InsertAllPath(ss, p + [d]);
    NodeAtSnoc(InsertAll(Empty(), ss), p, d);
    OnlyChild(m.children, d);
  }

  /** Walking on from the node at a common prefix `p` whose next character is forced. */
  lemma WalkOne(ss: seq<string>, p: string, m: Node<int>)
    requires |ss| > 0 && NoneEmpty(ss)
    requires NodeAt(InsertAll(Empty(), ss), p) == Some(m) && IsCommonPrefix(p, ss)
    requires m.value.None? && |m.children| == 1
    ensures IsCommonPrefix(p + [m.children[0].0], ss)
    ensures NodeAt(InsertAll(Empty(), ss), p + [m.children[0].0]) == Some(m.children[0].1)
  {
    var t := InsertAll(Empty(), ss);
    forall s | s in ss ensures p + [m.children[0].0] <= s {
      ForcedStep(ss, p, m, s);
    }
    InsertAllWf(Empty(), ss);
    NodeAtWf(t, p);
    NodeAtSnoc(t, p, m.children[0].0);
  }

  /** At a node with a value, or with two children or more, the common prefix is longest. */
  lemma WalkStop(ss: seq<string>, p: string, m: Node<int>)
    requires |ss| > 0 && NoneEmpty(ss)
    requires NodeAt(InsertAll(Empty(), ss), p) == Some(m) && IsCommonPrefix(p, ss)
    requires m.value.Some? || |m.children| != 1
    ensures IsLongestCommonPrefix(p, ss)
  {
    var t := InsertAll(Empty(), ss);
    if m.value.Some? {
      InsertAllFind(ss, p);
      forall q | IsCommonPrefix(q, ss) ensures |q| <= |p| {
        assert q <= p;
      }
    } else {
      OneWayOn(ss, p, m);
      InsertAllWf(Empty(), ss);
      NodeAtWf(t, p);
      var c1, c2 := m.children[0].0, m.children[1].0;
      NodeAtSnoc(t, p, c1);
      NodeAtSnoc(t, p, c2);
      InsertAllPath(ss, p + [c1]);
      InsertAllPath(ss, p + [c2]);
      var s1 :| s1 in ss && p + [c1] <= s1;
      var s2 :| s2 in ss && p + [c2] <= s2;
      forall q | IsCommonPrefix(q, ss) ensures |q| <= |p| {
        Diverge(q, s1, s2, |p|);
      }
    }
  }

  /** The longest common prefix does not depend on how its pieces are grouped. */
  lemma Regroup(ss: seq<string>, p: string, q: string, r: string)
    requires IsLongestCommonPrefix((p + q) + r, ss)
    ensures IsLongestCommonPrefix(p + (q + r), ss)
  {
    assert (p + q) + r == p + (q + r);
  }

  /** Walking on from the node at a common prefix `p` ends at the longest common prefix. */
  lemma {:induction false} WalkFrom(ss: seq<string>, p: string, m: Node<int>)
    requires |ss| > 0 && NoneEmpty(ss)
    requires NodeAt(InsertAll(Empty(), ss), p) == Some(m) && IsCommonPrefix(p, ss)
    ensures IsLongestCommonPrefix(p + CommonWalk(m), ss)
    decreases m
  {
    if |m.children| == 1 && m.value.None? {
      var c, m' := m.children[0].0, m.children[0].1;
      WalkOne(ss, p, m);
      WalkFrom(ss, p + [c], m');
      assert CommonWalk(m) == [c] + CommonWalk(m');
      Regroup(ss, p, [c], CommonWalk(m'));
    } else {
      WalkStop(ss, p, m);
      assert p + CommonWalk(m) == p;
    }
  }

  /** On a fresh trie, the walk of `find_longest_common_word` spells the longest
      common prefix of the inserted strings. */
  lemma WalkIsLongestCommonPrefix(ss: seq<string>)
    requires |ss| > 0 && NoneEmpty(ss)
    ensures IsLongestCommonPrefix(CommonWalk(InsertAll(Empty(), ss)), ss)
  {
    var t := InsertAll(Empty(), ss);
    assert IsCommonPrefix([], ss);
    WalkFrom(ss, [], t);
    assert [] + CommonWalk(t) == CommonWalk(t);
  }

  /** One more round of the insertion loop: the first `i + 1` strings are non-empty
      and inserted. */
  lemma PrefixStep(n: Node<int>, ss: seq<string>, i: nat)
    requires i < |ss| && NoneEmpty(ss[..i]) && ss[i] != []
    ensures NoneEmpty(ss[..i + 1])
    ensures InsertAll(n, ss[..i + 1]) == Insert(InsertAll(n, ss[..i]), ss[i], Some(i))
  {
    assert ss[..i + 1][..i] == ss[..i];
    assert forall j :: 0 <= j < i ==> ss[..i + 1][j] == ss[..i][j];
  }

  /** `find_longest_common_word(strings)`: rejects an empty list before any change;
      inserts the strings one at a time under their positions, rejecting the first
      empty one after the ones before it are in; then walks down from the root while
      the node has exactly one child and no value. On a fresh trie the result is the
      longest common prefix of the strings. */
  method FindLongestCommonWord(t: Trie<int>, strings: seq<string>) returns (r: Result<string>)
    requires t.Valid()
    modifies t
    ensures t.Valid() && t.exact == old(t.exact)
    ensures r.Err? <==> strings == [] || FirstEmpty(strings) < |strings|
    ensures t.root == InsertAll(old(t.root), strings[..FirstEmpty(strings)])
    ensures t.size == old(t.size) + |Unset(old(t.root), strings[..FirstEmpty(strings)])|
    ensures r.Ok? ==> r.value == CommonWalk(t.root)
    ensures r.Ok? && old(t.root) == Empty() ==> IsLongestCommonPrefix(r.value, strings)
  {
    if strings == [] {
      assert Unset(t.root, strings[..0]) == {};
      return Err(TypeError);
    }
    var complete := PutAll(t, strings);
    if !complete {
      return Err(TypeError);
    }
    assert strings[..|strings|] == strings;
    if old(t.root) == Empty() {
      assert NoneEmpty(strings[..FirstEmpty(strings)]);
      WalkIsLongestCommonPrefix(strings);
    }
    var prefix := Walk(t.root);
    return Ok(prefix);
  }

  /** The insertion loop of `find_longest_common_word`: `put(strings[i], i)` for each
      position in turn, stopping at the first empty string. Answers whether it
      got through the whole list. */
  method PutAll(t: Trie<int>, strings: seq<string>) returns (complete: bool)
    requires t.Valid()
    modifies t
    ensures t.Valid() && t.exact == old(t.exact)
    ensures complete <==> FirstEmpty(strings) == |strings|
    ensures t.root == InsertAll(old(t.root), strings[..FirstEmpty(strings)])
    ensures t.size == old(t.size) + |Unset(old(t.root), strings[..FirstEmpty(strings)])|
  {
    var i := 0;
    while i < |strings|
      invariant i <= |strings|
      invariant t.Valid() && t.exact == old(t.exact)
      invariant NoneEmpty(strings[..i])
      invariant t.root == InsertAll(old(t.root), strings[..i])
      invariant t.size == old(t.size) + |Unset(old(t.root), strings[..i])|
    {
      if strings[i] == [] {
        FirstEmptyAt(strings, i);
        return false;
      }
      UnsetStep(old(t.root), strings, i);
      var _ := t.Put(strings[i], Some(i));
      PrefixStep(old(t.root), strings, i);
      i := i + 1;
    }
    FirstEmptyAt(strings, i);
    return true;
  }

  /** The closing loop of `find_longest_common_word`: from `root`, follow the only
      child while there is exactly one and no value, collecting its characters. */
  method Walk(root: Node<int>) returns (prefix: string)
    ensures prefix == CommonWalk(root)
  {
    prefix := [];
    var current := root;
    while |current.children| == 1 && current.value.None?
      invariant prefix + CommonWalk(current) == CommonWalk(root)
      decreases current
    {
      var ch := current.children[0].0;
      prefix := prefix + [ch];
      current := current.children[0].1;
    }
    assert prefix + [] == prefix;
  }

  /** Among three strings, a common prefix `q` after which two of them differ is the
      longest one. */
  lemma PinDown(ss: seq<string>, q: string, i: nat, j: nat)
    requires |ss| == 3 && q <= ss[0] && q <= ss[1] && q <= ss[2]
    requires i < 3 && j < 3 && |q| < |ss[i]| && |q| < |ss[j]| && ss[i][|q|] != ss[j][|q|]
    ensures forall r :: IsLongestCommonPrefix(r, ss) ==> r == q
  {
    assert ss == [ss[0], ss[1], ss[2]];
    assert IsCommonPrefix(q, ss);
    assert ss[i] in ss && ss[j] in ss;
    forall r | IsLongestCommonPrefix(r, ss) ensures r == q {
      Diverge(r, ss[i], ss[j], |q|);
    }
  }

  /** `LongestCommonWord().find_longest_common_word(ss)` on a fresh trie, for a list
      that passes the argument checks. */
  method OnFreshTrie(ss: seq<string>) returns (p: string)
    requires |ss| > 0 && NoneEmpty(ss)
    ensures IsLongestCommonPrefix(p, ss)
  {
    var t := new Trie<int>();
    var r := FindLongestCommonWord(t, ss);
    p := r.value;
  }

  /** task_2.py's first check: "flower", "flow" and "flight" share "fl". */
  method DemoFlower() {
    var ss := ["flower", "flow", "flight"];
    assert NoneEmpty(ss);
    PinDown(ss, "fl", 0, 2);
    var p := OnFreshTrie(ss);
    assert p == "fl";
  }

  /** task_2.py's second check: the three "inters" words share "inters". */
  method DemoInters() {
    var ss := ["interspecies", "interstellar", "interstate"];
    assert NoneEmpty(ss);
    PinDown(ss, "inters", 0, 1);
    var p := OnFreshTrie(ss);
    assert p == "inters";
  }

  /** task_2.py's third check: "dog", "racecar" and "car" share nothing. */
  method DemoDog() {
    var ss := ["dog", "racecar", "car"];
    assert NoneEmpty(ss);
    PinDown(ss, "", 0, 1);
    var p := OnFreshTrie(ss);
    assert p == "";
  }

  /** `size` after a `put` of `None`: the call on ["b"] still adds one for "b". */
  method DemoSizeAfterNone() {
    var t := new Trie<int>();
    var u := t.Put("a", None);
    assert Find(t.root, "b").None?;
    var r := FindLongestCommonWord(t, ["b"]);
    FirstEmptyAt(["b"], 1);
    assert ["b"][..1] == ["b"];
    assert Unset(Insert(Empty(), "a", None), ["b"]) == {"b"};
    assert t.size == 2;
  }
}
