/** The in-memory prefix tree of emcbackend/src/testing2.py, as objects updated in place.

    A `TrieNode` holds a dict from a symbol to a child node and an end-of-word flag.  A Python
    dict iterates in the order its keys were first inserted, so the dict is modelled by the map
    `children` together with `childOrder`, the keys in insertion order.

    A `Trie` owns the root node.  Its ghost fields give the public view: `model` is the abstract
    value (see TrieSpec), `nodeAt` names the node object at the end of every path, and `Repr`
    is the set of objects the trie is made of.
 */
module PrefixTrie {
  import opened TrieSpec

  class TrieNode {
    var children: map<char, TrieNode>
    var childOrder: seq<char>
    var isEndOfWord: bool
    /** The path from the root to this node, kept for the proofs only. */
    ghost var path: string

    /** A node starts with no children and is not the end of a word. */
    constructor (ghost p: string)
      ensures children == map[] && childOrder == [] && !isEndOfWord && path == p
    {
      children := map[];
      childOrder := [];
      isEndOfWord := false;
      path := p;
    }

    /** `children[c] = node` for a symbol `c` not yet in the dict: the new key goes last in
        the iteration order. */
    method Link(c: char, node: TrieNode)
      requires c !in children
      modifies this
      ensures children == old(children)[c := node] && childOrder == old(childOrder) + [c]
      ensures isEndOfWord == old(isEndOfWord) && path == old(path)
    {
      children := children[c := node];
      childOrder := childOrder + [c];
    }
  }

  class Trie {
    var root: TrieNode
    ghost var model: TrieModel
    ghost var nodeAt: map<string, TrieNode>
    ghost var Repr: set<object>

    /** The object invariant.  Distinct paths lead to distinct node objects (no sharing, no
        cycles: each node records its own path), every node agrees with the abstract value at its path, and the edge labelled
        `c` out of the node at `s` leads to the node at `s + [c]`. */
    ghost predicate Valid()
      reads this, Repr
      ensures Valid() ==> this in Repr
    {
      && this in Repr
      && WellFormed(model)
      && nodeAt.Keys == model.order.Keys
      && "" in nodeAt && nodeAt[""] == root
      && (forall s :: s in nodeAt ==>
            && nodeAt[s] in Repr
            && nodeAt[s].path == s
            && nodeAt[s].childOrder == model.order[s]
            && (nodeAt[s].isEndOfWord <==> s in model.ends))
      && (forall s, c :: s in nodeAt ==> (c in nodeAt[s].children <==> c in nodeAt[s].childOrder))
      && (forall s, c {:trigger nodeAt[s].children[c]} :: s in nodeAt && c in nodeAt[s].children ==>
            s + [c] in nodeAt && nodeAt[s].children[c] == nodeAt[s + [c]])
    }

    /** The stored words. */
    ghost function Contents(): set<string>
      reads this
    {
      model.ends
    }

    /** A new trie is a lone root and stores no word. */
    constructor ()
      ensures Valid() && fresh(Repr)
      ensures model == Empty() && Contents() == {}
    {
      var r := new TrieNode("");
      root := r;
      model := Empty();
      nodeAt := map["" := r];
      Repr := {this, r};
    }

    /** `insert(word)`: walks the path of `word`, creating each missing child, and marks the
        last node as a word end.  Every prefix of `word` then has a node, nodes that existed keep
        their identity, only the missing prefixes of `word` are added, and when the path of `word`
        already existed no node is created at all. */
    method Insert(word: string)
      requires Valid()
      modifies Repr
      ensures Valid() && fresh(Repr - old(Repr))
      ensures model == Inserted(old(model), word)
      ensures Contents() == old(Contents()) + {word}
      ensures nodeAt.Keys == old(nodeAt).Keys + Prefixes(word)
      ensures forall s :: s in old(nodeAt) ==> nodeAt[s] == old(nodeAt)[s]
      ensures word in old(nodeAt) ==> nodeAt == old(nodeAt) && Repr == old(Repr)
    {
      var current := Reach(word);
      MarkEnd(current, word);
      AddPathNodes(old(model), word);
    }

    /** The loop of `insert`: follows the path of `word` from the root, creating each missing
        child on the way, and returns the node at the end of the path. */
    method Reach(word: string) returns (current: TrieNode)
      requires Valid()
      modifies Repr
      ensures Valid() && old(Repr) <= Repr && fresh(Repr - old(Repr))
      ensures model == AddPath(old(model), word)
      ensures word in nodeAt && current == nodeAt[word]
      ensures forall s :: s in old(nodeAt) ==> s in nodeAt && nodeAt[s] == old(nodeAt)[s]
      ensures word in old(nodeAt) ==> nodeAt == old(nodeAt) && Repr == old(Repr)
    {
      ghost var target := AddPath(old(model), word);
      assert word[..0] == "";
      current := root;
      for i := 0 to |word|
        invariant Valid() && old(Repr) <= Repr && fresh(Repr - old(Repr))
        invariant word[..i] in nodeAt && current == nodeAt[word[..i]]
        invariant Walk(model, word, i) == target
        invariant forall s :: s in old(nodeAt) ==> s in nodeAt && nodeAt[s] == old(nodeAt)[s]
        invariant word in old(nodeAt) ==> nodeAt == old(nodeAt) && Repr == old(Repr)
      {
        if word[..i + 1] !in nodeAt {
          NotOnPath(old(model), word, i + 1);
        }
        current := Descend(current, word, i);
      }
      assert word[..|word|] == word;
    }

    /** One turn of the loop of `insert`: the child of `current` for the symbol `w[i]`,
        created first when it is missing. */
    method Descend(current: TrieNode, w: string, i: nat) returns (node: TrieNode)
      requires Valid() && i < |w| && w[..i] in nodeAt && current == nodeAt[w[..i]]
      modifies this, current
      ensures Valid() && model == Step(old(model), w, i)
      ensures w[..i + 1] in nodeAt && node == nodeAt[w[..i + 1]]
      ensures w[..i + 1] in old(nodeAt) ==> nodeAt == old(nodeAt) && Repr == old(Repr)
      ensures w[..i + 1] !in old(nodeAt) ==>
        fresh(node) && nodeAt == old(nodeAt)[w[..i + 1] := node] && Repr == old(Repr) + {node}
    {
      var c := w[i];
      assert w[..i + 1] == w[..i] + [c];
      if c in current.children {
        node := current.children[c];
      } else {
        node := AddChildNode(current, w[..i], c);
      }
    }

    /** The step `current.is_end_of_word = True` of `insert`: the node at path `w` becomes a
        word end and nothing else changes. */
    method MarkEnd(current: TrieNode, w: string)
      requires Valid() && w in nodeAt && current == nodeAt[w]
      modifies this, current
      ensures Valid() && Repr == old(Repr) && nodeAt == old(nodeAt)
      ensures model == old(model).(ends := old(model).ends + {w})
    {
      current.isEndOfWord := true;
      model := model.(ends := model.ends + {w});
      EndMarked(current, w);
    }

    /** The object invariant survives `MarkEnd`: only the flag of `current` and the stored
        words changed.
        `w` is marked `new` only to work around a Dafny 4.11 prover crash ("named expression
        already defined") that a call of a twostate lemma with two or more parameters that are
        not `new` triggers under `--warn-contradictory-assumptions`. */
    twostate lemma EndMarked(current: TrieNode, new w: string)
      requires old(Valid()) && w in old(nodeAt) && current == old(nodeAt)[w]
      requires current.isEndOfWord && current.children == old(current.children)
      requires current.childOrder == old(current.childOrder) && current.path == old(current.path)
      requires unchanged(old(Repr) - {this, current})
      requires root == old(root) && nodeAt == old(nodeAt) && Repr == old(Repr)
      requires model == old(model).(ends := old(model).ends + {w})
      ensures Valid()
    {
      forall t | t in nodeAt && t != w
        ensures nodeAt[t] != current
        ensures nodeAt[t].childOrder == old(nodeAt[t].childOrder)
        ensures nodeAt[t].children == old(nodeAt[t].children)
        ensures nodeAt[t].isEndOfWord == old(nodeAt[t].isEndOfWord)
        ensures nodeAt[t].path == old(nodeAt[t].path)
      {
      }
    }

    /** The step `current.children[char] = TrieNode()` of `insert`: a new node, not a word
        end, becomes the last child of the node at path `s`. */
    method AddChildNode(current: TrieNode, s: string, c: char) returns (node: TrieNode)
      requires Valid() && s in nodeAt && current == nodeAt[s] && c !in current.children
      modifies this, current
      ensures Valid() && fresh(node) && Repr == old(Repr) + {node}
      ensures model == AddChild(old(model), s, c)
      ensures nodeAt == old(nodeAt)[s + [c] := node]
    {
      var n := s + [c];
      node := new TrieNode(n);
      current.Link(c, node);
      model, nodeAt, Repr := AddChild(model, s, c), nodeAt[n := node], Repr + {node};
      ChildAdded(current, s, c, node);
    }

    /** The object invariant survives `AddChildNode`: only `current` and the trie itself
        changed, and the new node is in its place.
        `s` and `c` are marked `new` only to work around a Dafny 4.11 prover crash ("named
        expression already defined") that a call of a twostate lemma with two or more
        parameters that are not `new` triggers under `--warn-contradictory-assumptions`;
        `node` is `new` because it is freshly allocated. */
    twostate lemma ChildAdded(current: TrieNode, new s: string, new c: char, new node: TrieNode)
      requires old(Valid()) && s in old(nodeAt) && current == old(nodeAt)[s]
      requires c !in old(current.children)
      requires fresh(node) && node.path == s + [c]
      requires node.children == map[] && node.childOrder == [] && !node.isEndOfWord
      requires current.children == old(current.children)[c := node]
      requires current.childOrder == old(current.childOrder) + [c]
      requires current.isEndOfWord == old(current.isEndOfWord) && current.path == old(current.path)
      requires unchanged(old(Repr) - {this, current})
      requires root == old(root) && model == AddChild(old(model), s, c)
      requires nodeAt == old(nodeAt)[s + [c] := node] && Repr == old(Repr) + {node}
      ensures Valid()
    {
      var n := s + [c];
      assert n !in old(model.order);
      AddChildWellFormed(old(model), s, c);
      OthersKept(current, s, c, node);
      assert nodeAt[""] == root by {
        assert "" != n;
      }
      forall t, d {:trigger nodeAt[t].children[d]} | t in nodeAt && d in nodeAt[t].children
        ensures t + [d] in nodeAt && nodeAt[t].children[d] == nodeAt[t + [d]]
      {
        if t == s && d != c {
          assert s + [d] != n;
        } else if t != s && t != n {
          assert t + [d] != n;
        }
      }
    }

    /** Under `AddChildNode`, the node at every other old path is the same object with the
        same fields.
        `s` and `c` are marked `new` only to work around a Dafny 4.11 prover crash ("named
        expression already defined") that a call of a twostate lemma with two or more
        parameters that are not `new` triggers under `--warn-contradictory-assumptions`;
        `node` is `new` because it is freshly allocated. */
    twostate lemma OthersKept(current: TrieNode, new s: string, new c: char, new node: TrieNode)
      requires old(Valid()) && s in old(nodeAt) && current == old(nodeAt)[s]
      requires s + [c] !in old(nodeAt)
      requires fresh(node) && unchanged(old(Repr) - {this, current})
      requires model == AddChild(old(model), s, c) && nodeAt == old(nodeAt)[s + [c] := node]
      ensures forall t | t in old(nodeAt) && t != s ::
        && nodeAt[t] == old(nodeAt)[t] && nodeAt[t] != current && nodeAt[t] != node
        && nodeAt[t].childOrder == old(nodeAt[t].childOrder) == model.order[t]
        && nodeAt[t].children == old(nodeAt[t].children)
        && nodeAt[t].isEndOfWord == old(nodeAt[t].isEndOfWord)
        && nodeAt[t].path == old(nodeAt[t].path)
    {
      forall t | t in old(nodeAt) && t != s
        ensures nodeAt[t] == old(nodeAt)[t] && nodeAt[t] != current && nodeAt[t] != node
      {
        assert t != s + [c];
      }
    }

    /** `search(word)`: true exactly when `word` is stored.  The walk gives up at the first
        symbol with no child edge, and a path that ends at a node not marked as a word end (a
        proper prefix of a stored word, say) also gives false. */
    method Search(word: string) returns (found: bool)
      requires Valid()
      ensures found <==> word in Contents()
    {
      var current := root;
      for i := 0 to |word|
        invariant word[..i] in nodeAt && current == nodeAt[word[..i]]
      {
        var c := word[i];
        assert word[..i + 1] == word[..i] + [c];
        if c !in current.children {
          NotOnPath(model, word, i + 1);
          return false;
        }
        current := current.children[c];
      }
      assert word[..|word|] == word;
      found := current.isEndOfWord;
    }

    /** `starts_with(prefix)`: the stored words that begin with `prefix`, each once and each
        before its own extensions; the empty list when the path of `prefix` is missing. */
    method StartsWith(prefix: string) returns (words: seq<string>)
      requires Valid()
      ensures words == Completions(model, prefix)
      ensures forall t :: t in words <==> t in Contents() && prefix <= t
      ensures Distinct(words) && PreOrdered(words)
    {
      CompletionsExact(model, prefix);
      var current := root;
      words := [];
      for i := 0 to |prefix|
        invariant prefix[..i] in nodeAt && current == nodeAt[prefix[..i]]
      {
        var c := prefix[i];
        assert prefix[..i + 1] == prefix[..i] + [c];
        if c !in current.children {
          NotOnPath(model, prefix, i + 1);
          return;
        }
        current := current.children[c];
      }
      assert prefix[..|prefix|] == prefix;
      words := Dfs(current, prefix, words);
    }

    /** `_dfs(node, prefix, words)`: appends to `words` the listing of the node at `prefix`,
        that is, `prefix` itself when it is a word end and then, child by child in insertion
        order, the words below each child. */
    method Dfs(node: TrieNode, prefix: string, words: seq<string>) returns (result: seq<string>)
      requires Valid() && prefix in nodeAt && node == nodeAt[prefix]
      ensures result == words + Listing(model, prefix)
      decreases |Below(model, prefix)|
    {
      result := words;
      if node.isEndOfWord {
        result := result + [prefix];
      }
      ghost var own := if prefix in model.ends then [prefix] else [];
      for j := 0 to |node.childOrder|
        invariant result == words + own + ListKids(model, prefix, j)
      {
        var c := node.childOrder[j];
        var child := node.children[c];
        BelowShrinks(model, prefix, c);
        result := Dfs(child, prefix + [c], result);
        AppendAssoc(words + own, ListKids(model, prefix, j), Listing(model, prefix + [c]));
      }
      AppendAssoc(words, own, ListKids(model, prefix, |node.childOrder|));
    }
  }

  /** The loop of the script: each word of `ws` is inserted in turn. */
  method InsertWords(trie: Trie, ws: seq<string>)
    requires trie.Valid()
    modifies trie.Repr
    ensures trie.Valid() && fresh(trie.Repr - old(trie.Repr))
    ensures trie.model == InsertedAll(old(trie.model), ws)
  {
    for i := 0 to |ws|
      invariant trie.Valid() && fresh(trie.Repr - old(trie.Repr))
      invariant trie.model == InsertedAll(old(trie.model), ws[..i])
    {
      assert ws[..i + 1][..i] == ws[..i];
      trie.Insert(ws[i]);
    }
    assert ws[..|ws|] == ws;
  }

  /** A word just inserted is found by `search`, the empty word included. */
  method InsertThenSearch(trie: Trie, w: string) returns (found: bool)
    requires trie.Valid()
    modifies trie.Repr
    ensures trie.Valid() && found
    ensures trie.Contents() == old(trie.Contents()) + {w}
  {
    trie.Insert(w);
    found := trie.Search(w);
  }

  /** The script at the end of the file: insert five words, then ask for the completions of
      "eat". */
  method Script() returns (completions: seq<string>)
    ensures completions == ["eating", "eatingea"]
  {
    var testdict := ["hello", "working", "sleeping", "eating", "eatingea"];
    var trie := new Trie();
    InsertWords(trie, testdict);
    completions := trie.StartsWith("eat");
    ScriptResult(testdict, trie.model);
  }
}
