/** The abstract value of the prefix tree kept by `Trie` in emcbackend/src/testing2.py.

    Every node of the tree is named by the path of symbols that leads to it from the root
    (the root is the empty path).  `order[s]` lists the symbols of the children of node `s`
    in the order they were first added, which is the order in which a Python dict yields its
    keys; `ends` holds the paths whose node has `is_end_of_word` set, that is, the stored words.
 */
module TrieSpec {

  datatype TrieModel = TrieModel(order: map<string, seq<char>>, ends: set<string>)

  predicate Distinct<T(==)>(xs: seq<T>) {
    forall i, j :: 0 <= i < j < |xs| ==> xs[i] != xs[j]
  }

  /** A word never comes after a word that extends it. */
  predicate PreOrdered(xs: seq<string>) {
    forall i, j :: 0 <= i < |xs| && 0 <= j < |xs| && xs[i] < xs[j] ==> i < j
  }

  /** Tree shape: the root exists, every stored word is a node, child symbols are listed once,
      every listed child is a node, and every other node hangs below its parent. */
  ghost predicate WellFormed(m: TrieModel) {
    && "" in m.order
    && m.ends <= m.order.Keys
    && (forall s :: s in m.order ==> Distinct(m.order[s]))
    && (forall s, i :: s in m.order && 0 <= i < |m.order[s]| ==> s + [m.order[s][i]] in m.order)
    && (forall s, c {:trigger s + [c]} :: s + [c] in m.order ==> s in m.order && c in m.order[s])
  }

  /** The trie right after `Trie()`: a lone root that is not a word end. */
  function Empty(): (m: TrieModel)
    ensures WellFormed(m) && m.ends == {}
  {
    TrieModel(map["" := []], {})
  }

  /** The node `s + [c]` is created and recorded as the last child of `s`. */
  function AddChild(m: TrieModel, s: string, c: char): TrieModel
    requires s in m.order
  {
    TrieModel(m.order[s := m.order[s] + [c]][s + [c] := []], m.ends)
  }

  function Prefixes(p: string): set<string> {
    set k | 0 <= k <= |p| :: p[..k]
  }

  lemma AddChildWellFormed(m: TrieModel, s: string, c: char)
    requires WellFormed(m) && s in m.order && s + [c] !in m.order
    ensures WellFormed(AddChild(m, s, c))
    ensures AddChild(m, s, c).order.Keys == m.order.Keys + {s + [c]}
  {
    var o := AddChild(m, s, c).order;
    var n := s + [c];
    assert c !in m.order[s];
    forall t | t in o ensures Distinct(o[t]) {
      if t != n && t != s {
        assert o[t] == m.order[t];
      }
    }
    forall t, i | t in o && 0 <= i < |o[t]| ensures t + [o[t][i]] in o {
      if t != n && t != s {
        assert o[t] == m.order[t];
      } else if t == s && i < |m.order[s]| {
        assert o[t][i] == m.order[s][i];
      }
    }
    forall u, d | u + [d] in o ensures u in o && d in o[u] {
      if u + [d] == n {
        assert u == (u + [d])[..|u|] == s;
        assert d == (u + [d])[|u|] == c;
      } else {
        assert u + [d] in m.order;
        if u != s {
          assert o[u] == m.order[u];
        }
      }
    }
  }

  /** One step of the walk of `insert` along `w`: the child for the symbol `w[i]` of the node
      at `w[..i]` is created when it is missing. */
  function Step(m: TrieModel, w: string, i: nat): (r: TrieModel)
    requires i < |w| && w[..i] in m.order
    ensures r.ends == m.ends
    ensures r.order.Keys == m.order.Keys + {w[..i + 1]}
    ensures w[..i + 1] in m.order ==> r == m
  {
    assert w[..i + 1] == w[..i] + [w[i]];
    if w[..i + 1] in m.order then m else AddChild(m, w[..i], w[i])
  }

  /** The rest of the walk of `insert`, from the node at `w[..i]` to the node at `w`. */
  function Walk(m: TrieModel, w: string, i: nat): (r: TrieModel)
    requires i <= |w| && w[..i] in m.order
    ensures w in r.order && r.ends == m.ends
    ensures m.order.Keys <= r.order.Keys
    decreases |w| - i
  {
    if i == |w| then
      assert w[..i] == w;
      m
    else
      Walk(Step(m, w, i), w, i + 1)
  }

  /** The walk of `insert` down the path `p`: every missing node on the path is created, in
      the order the symbols of `p` are visited, and nothing else changes. */
  function AddPath(m: TrieModel, p: string): (r: TrieModel)
    requires "" in m.order
    ensures p in r.order && r.ends == m.ends && m.order.Keys <= r.order.Keys
  {
    assert p[..0] == "";
    Walk(m, p, 0)
  }

  /** `insert(w)`: the path of `w` is created and its last node marked as a word end. */
  function Inserted(m: TrieModel, w: string): (r: TrieModel)
    requires "" in m.order
    ensures "" in r.order && w in r.order
    ensures forall x :: x in r.ends <==> x == w || x in m.ends
  {
    var q := AddPath(m, w);
    TrieModel(q.order, q.ends + {w})
  }

  /** Inserting the words of `ws` one after the other. */
  function InsertedAll(m: TrieModel, ws: seq<string>): (r: TrieModel)
    requires "" in m.order
    ensures "" in r.order
    ensures forall x :: x in r.ends <==> x in ws || x in m.ends
    decreases |ws|
  {
    if ws == [] then m
    else Inserted(InsertedAll(m, ws[..|ws| - 1]), ws[|ws| - 1])
  }

  /** A step of the walk keeps the tree well formed. */
  lemma StepWellFormed(m: TrieModel, w: string, i: nat)
    requires WellFormed(m) && i < |w| && w[..i] in m.order
    ensures WellFormed(Step(m, w, i))
  {
    assert w[..i + 1] == w[..i] + [w[i]];
    if w[..i + 1] !in m.order {
      AddChildWellFormed(m, w[..i], w[i]);
    }
  }

  /** The rest of the walk keeps the tree well formed. */
  lemma {:induction false} WalkWellFormed(m: TrieModel, w: string, i: nat)
    requires WellFormed(m) && i <= |w| && w[..i] in m.order
    ensures WellFormed(Walk(m, w, i))
    decreases |w| - i
  {
    if i < |w| {
      StepWellFormed(m, w, i);
      WalkWellFormed(Step(m, w, i), w, i + 1);
    }
  }

  /** `insert` keeps the tree well formed. */
  lemma InsertedWellFormed(m: TrieModel, w: string)
    requires WellFormed(m)
    ensures WellFormed(Inserted(m, w))
  {
    assert w[..0] == "";
    WalkWellFormed(m, w, 0);
  }

  /** Inserting several words keeps the tree well formed. */
  lemma {:induction false} InsertedAllWellFormed(m: TrieModel, ws: seq<string>)
    requires WellFormed(m)
    ensures WellFormed(InsertedAll(m, ws))
    decreases |ws|
  {
    if ws != [] {
      InsertedAllWellFormed(m, ws[..|ws| - 1]);
      InsertedWellFormed(InsertedAll(m, ws[..|ws| - 1]), ws[|ws| - 1]);
    }
  }

  /** Every prefix of a node is a node. */
  lemma {:induction false} PrefixClosed(m: TrieModel, t: string, k: nat)
    requires WellFormed(m) && t in m.order && k <= |t|
    ensures t[..k] in m.order
    decreases |t|
  {
    if k < |t| {
      var parent := t[..|t| - 1];
      assert t == parent + [t[|t| - 1]];
      PrefixClosed(m, parent, k);
      assert parent[..k] == t[..k];
    } else {
      assert t[..k] == t;
    }
  }

  /** A word whose path leaves the tree after `k` symbols is neither a node nor stored. */
  lemma NotOnPath(m: TrieModel, w: string, k: nat)
    requires WellFormed(m) && k <= |w| && w[..k] !in m.order
    ensures w !in m.order && w !in m.ends
  {
    if w in m.order {
      PrefixClosed(m, w, k);
    }
  }

  /** The symbol after `s` on the path of a node below `s` is a child symbol of `s`. */
  lemma ChildOnPath(m: TrieModel, s: string, t: string)
    requires WellFormed(m) && t in m.order && s < t
    ensures s in m.order && t[|s|] in m.order[s]
  {
    PrefixClosed(m, t, |s| + 1);
    assert t[..|s| + 1] == s + [t[|s|]];
  }

  /** The rest of the walk creates exactly the prefixes of `w` longer than `i` that are
      missing. */
  lemma {:induction false} WalkNodes(m: TrieModel, w: string, i: nat)
    requires i <= |w| && w[..i] in m.order
    ensures Walk(m, w, i).order.Keys == m.order.Keys + (set k | i < k <= |w| :: w[..k])
    decreases |w| - i
  {
    if i < |w| {
      WalkNodes(Step(m, w, i), w, i + 1);
      assert (set k | i < k <= |w| :: w[..k]) == {w[..i + 1]} + (set k | i + 1 < k <= |w| :: w[..k]);
    }
  }

  /** `insert` creates nodes only along the path of the word: exactly its missing prefixes. */
  lemma AddPathNodes(m: TrieModel, p: string)
    requires "" in m.order
    ensures AddPath(m, p).order.Keys == m.order.Keys + Prefixes(p)
  {
    assert p[..0] == "";
    WalkNodes(m, p, 0);
    assert Prefixes(p) == {p[..0]} + (set k | 0 < k <= |p| :: p[..k]);
  }

  /** When the path of `w` already exists, the rest of the walk creates no node. */
  lemma {:induction false} WalkPresent(m: TrieModel, w: string, i: nat)
    requires WellFormed(m) && i <= |w| && w in m.order
    ensures w[..i] in m.order && Walk(m, w, i) == m
    decreases |w| - i
  {
    PrefixClosed(m, w, i);
    if i < |w| {
      PrefixClosed(m, w, i + 1);
      WalkPresent(m, w, i + 1);
    }
  }

  /** When the path of `p` already exists, the walk creates no node at all. */
  lemma AddPathPresent(m: TrieModel, p: string)
    requires WellFormed(m) && p in m.order
    ensures AddPath(m, p) == m
  {
    WalkPresent(m, p, 0);
  }

  /** `insert` is idempotent: inserting a stored word changes nothing. */
  lemma InsertedIdempotent(m: TrieModel, w: string)
    requires WellFormed(m)
    ensures w in m.ends ==> Inserted(m, w) == m
    ensures Inserted(Inserted(m, w), w) == Inserted(m, w)
  {
    if w in m.ends {
      AddPathPresent(m, w);
    }
    var m1 := Inserted(m, w);
    InsertedWellFormed(m, w);
    AddPathPresent(m1, w);
  }

  /** The nodes at or below `s`; it shrinks at each step down, which bounds the recursion. */
  function Below(m: TrieModel, s: string): set<string> {
    set t | t in m.order && s <= t
  }

  lemma BelowShrinks(m: TrieModel, s: string, c: char)
    requires s in m.order
    ensures |Below(m, s + [c])| < |Below(m, s)|
  {
    var small, big := Below(m, s + [c]), Below(m, s);
    assert small <= big by {
      forall t | t in small ensures t in big {
        assert t[..|s|] == (s + [c])[..|s|] == s;
      }
    }
    assert s in big - small;
    assert big == small + (big - small);
  }

  /** What `_dfs` appends for the node at path `s`: `s` itself when it is a word end, then
      the listings of its children, visited in insertion order (a pre-order walk). */
  function Listing(m: TrieModel, s: string): seq<string>
    requires WellFormed(m) && s in m.order
    decreases |Below(m, s)|, 1, 0
  {
    (if s in m.ends then [s] else []) + ListKids(m, s, |m.order[s]|)
  }

  /** The listings of the first `n` children of `s`, in insertion order. */
  function ListKids(m: TrieModel, s: string, n: nat): seq<string>
    requires WellFormed(m) && s in m.order && n <= |m.order[s]|
    decreases |Below(m, s)|, 0, n
  {
    if n == 0 then []
    else
      var c := m.order[s][n - 1];
      BelowShrinks(m, s, c);
      ListKids(m, s, n - 1) + Listing(m, s + [c])
  }

  /** What `starts_with(p)` returns: nothing when the path of `p` is missing. */
  function Completions(m: TrieModel, p: string): seq<string>
    requires WellFormed(m)
  {
    if p in m.order then Listing(m, p) else []
  }

  /** Extending `s` by the child symbol `c`, unfolded into prefix, length and index. A helper
      that keeps the listing proofs cheap; it states nothing about the trie itself. */
  lemma ExtendsChild(s: string, c: char, t: string)
    ensures s + [c] <= t <==> s <= t && |s| < |t| && t[|s|] == c
  {
    if s <= t && |s| < |t| && t[|s|] == c {
      assert t[..|s| + 1] == s + [c];
    }
    if s + [c] <= t {
      assert t[..|s|] == (s + [c])[..|s|];
    }
  }

  lemma DistinctAppend<T>(a: seq<T>, b: seq<T>)
    requires Distinct(a) && Distinct(b)
    requires forall x :: x in a ==> x !in b
    ensures Distinct(a + b)
  {
    forall i, j | 0 <= i < j < |a + b| ensures (a + b)[i] != (a + b)[j] {
      if i < |a| && |a| <= j {
        assert (a + b)[i] in a && (a + b)[j] in b;
      }
    }
  }

  lemma PreOrderedAppend(a: seq<string>, b: seq<string>)
    requires PreOrdered(a) && PreOrdered(b)
    requires forall x, y :: x in a && y in b ==> !(y < x)
    ensures PreOrdered(a + b)
  {
    assert forall i, j :: 0 <= i < |a| && 0 <= j < |b| ==> !(b[j] < a[i]) by {
      forall i, j | 0 <= i < |a| && 0 <= j < |b| ensures !(b[j] < a[i]) {
        assert a[i] in a && b[j] in b;
      }
    }
    forall i, j | 0 <= i < |a + b| && 0 <= j < |a + b| && (a + b)[i] < (a + b)[j]
      ensures i < j
    {
      if i < |a| && j < |a| {
        assert (a + b)[i] == a[i] && (a + b)[j] == a[j];
      } else if |a| <= i && |a| <= j {
        assert (a + b)[i] == b[i - |a|] && (a + b)[j] == b[j - |a|];
      }
    }
  }

  /** The listing of node `s` holds exactly the stored words that extend `s`, each once, and
      each before its own extensions. */
  lemma {:induction false} ListingFacts(m: TrieModel, s: string)
    requires WellFormed(m) && s in m.order
    ensures forall t :: t in Listing(m, s) <==> t in m.ends && s <= t
    ensures Distinct(Listing(m, s))
    ensures PreOrdered(Listing(m, s))
    decreases |Below(m, s)|, 1, 0
  {
    var own: seq<string> := if s in m.ends then [s] else [];
    var kids := ListKids(m, s, |m.order[s]|);
    ListKidsFacts(m, s, |m.order[s]|);
    assert m.order[s][..|m.order[s]|] == m.order[s];
    assert Listing(m, s) == own + kids;
    forall t | t in m.ends && s <= t && t != s ensures t in kids {
      ChildOnPath(m, s, t);
    }
    DistinctAppend(own, kids);
    PreOrderedAppend(own, kids);
  }

  /** The listings of the first `n` children hold exactly the stored words below `s` whose
      next symbol is one of theirs, each once, and each before its own extensions. */
  lemma {:induction false} ListKidsFacts(m: TrieModel, s: string, n: nat)
    requires WellFormed(m) && s in m.order && n <= |m.order[s]|
    ensures forall t :: t in ListKids(m, s, n) <==>
      t in m.ends && s <= t && |s| < |t| && t[|s|] in m.order[s][..n]
    ensures Distinct(ListKids(m, s, n))
    ensures PreOrdered(ListKids(m, s, n))
    decreases |Below(m, s)|, 0, n
  {
    if n != 0 {
      var c, init := m.order[s][n - 1], m.order[s][..n - 1];
      assert m.order[s][..n] == init + [c];
      assert c !in init by {
        assert Distinct(m.order[s]);
        assert forall k :: 0 <= k < |init| ==> init[k] == m.order[s][k];
      }
      BelowShrinks(m, s, c);
      ListKidsFacts(m, s, n - 1);
      ListingFacts(m, s + [c]);
      var a, b := ListKids(m, s, n - 1), Listing(m, s + [c]);
      assert ListKids(m, s, n) == a + b;
      SiblingBlocks(m.ends, s, init, c, a, b);
      DistinctAppend(a, b);
      PreOrderedAppend(a, b);
    }
  }

  /** Regrouping a concatenation of three sequences. A performance hint for the loop of
      `Dfs`, not a fact about the trie: Dafny knows it, but naming the instance keeps that
      proof cheap. */
  lemma AppendAssoc<T>(a: seq<T>, b: seq<T>, c: seq<T>)
    ensures a + b + c == a + (b + c)
  {
  }

  /** The words listed below the child `c` of `s` neither repeat nor extend, and are not
      prefixes of, the words listed below its earlier siblings `init`. A helper that splits
      the proof of `ListKidsFacts` into cheaper steps. */
  lemma SiblingBlocks(ends: set<string>, s: string, init: seq<char>, c: char,
                      a: seq<string>, b: seq<string>)
    requires c !in init
    requires forall t :: t in a <==> t in ends && s <= t && |s| < |t| && t[|s|] in init
    requires forall t :: t in b <==> t in ends && s + [c] <= t
    ensures forall t :: t in a + b <==> t in ends && s <= t && |s| < |t| && t[|s|] in init + [c]
    ensures forall x :: x in a ==> x !in b
    ensures forall x, y :: x in a && y in b ==> !(y < x)
  {
    forall t ensures s + [c] <= t <==> s <= t && |s| < |t| && t[|s|] == c {
      ExtendsChild(s, c, t);
    }
  }

  /** `starts_with(p)` lists every stored word that begins with `p` exactly once and nothing
      else, and a stored prefix before its extensions; a missing path gives the empty list. */
  lemma CompletionsExact(m: TrieModel, p: string)
    requires WellFormed(m)
    ensures forall t :: t in Completions(m, p) <==> t in m.ends && p <= t
    ensures Distinct(Completions(m, p))
    ensures PreOrdered(Completions(m, p))
    ensures p !in m.order ==> Completions(m, p) == []
  {
    forall t | t in m.ends && p <= t ensures p in m.order {
      PrefixClosed(m, t, |p|);
      assert t[..|p|] == p;
    }
    if p in m.order {
      ListingFacts(m, p);
    }
  }

  /** `starts_with("")` returns every stored word. */
  lemma CompletionsOfEmpty(m: TrieModel)
    requires WellFormed(m)
    ensures forall t :: t in Completions(m, "") <==> t in m.ends
  {
    CompletionsExact(m, "");
  }

  lemma EatFilter(ws: seq<string>)
    requires ws == ["hello", "working", "sleeping", "eating", "eatingea"]
    ensures forall t :: t in ws && "eat" <= t <==> t == "eating" || t == "eatingea"
    ensures "eating" < "eatingea"
  {
    assert "eat" <= "eating" && "eat" <= "eatingea";
    assert "hello"[0] != 'e' && "working"[0] != 'e' && "sleeping"[0] != 'e';
  }

  /** A repetition-free pre-order listing of two words, one extending the other. */
  lemma PairListing(l: seq<string>, x: string, y: string)
    requires Distinct(l) && PreOrdered(l) && x < y
    requires forall t :: t in l <==> t == x || t == y
    ensures l == [x, y]
  {
    assert x in l && y in l;
    var i :| 0 <= i < |l| && l[i] == x;
    var j :| 0 <= j < |l| && l[j] == y;
    assert i < j;
    assert l[0] == x by {
      assert l[0] in l;
    }
    assert l[1] == y by {
      assert l[1] in l;
    }
    assert forall k :: 2 <= k < |l| ==> l[k] in l && l[k] != l[0] && l[k] != l[1];
    assert |l| == 2;
  }

  /** The script at the end of the file: once the trie stores exactly its five words,
      `starts_with("eat")` gives "eating" and then "eatingea". */
  lemma ScriptResult(ws: seq<string>, m: TrieModel)
    requires ws == ["hello", "working", "sleeping", "eating", "eatingea"]
    requires WellFormed(m) && forall x :: x in m.ends <==> x in ws
    ensures Completions(m, "eat") == ["eating", "eatingea"]
  {
    CompletionsExact(m, "eat");
    EatFilter(ws);
    PairListing(Completions(m, "eat"), "eating", "eatingea");
  }
}
