/** The prefix tree of index/trie.go as linked, mutated nodes, and the set of terms it stands for. */
module Trie {

  class TrieNode {
    var children: map<char, TrieNode>
    var isEnd: bool
    var term: string

    constructor ()
      ensures children == map[] && !isEnd && term == ""
    {
      children, isEnd, term := map[], false, "";
    }
  }

  /** The fields of a node at one moment. */
  datatype Cell = Cell(children: map<char, TrieNode>, isEnd: bool, term: string)

  type Paths = map<string, TrieNode>
  type Cells = map<string, Cell>

  function Extend(p: string, c: char): string { p + [c] }

  /** A tree: every node hangs at exactly one path, below the node of the path one shorter. */
  ghost predicate IsTree(root: TrieNode, at: Paths, cells: Cells) {
    && cells.Keys == at.Keys
    && "" in at && at[""] == root
    && (forall p <- at, q <- at :: p != q ==> at[p] != at[q])
    && (forall p <- at, c :: c in cells[p].children <==> Extend(p, c) in at)
    && (forall p <- at, c :: c in cells[p].children ==> cells[p].children[c] == at[Extend(p, c)])
    && (forall p <- at :: p != "" ==> p[..|p| - 1] in at)
  }

  /** Ends of terms are marked, and carry the term that leads to them. */
  ghost predicate IsMarked(terms: set<string>, cells: Cells) {
    && terms <= cells.Keys
    && (forall p <- cells :: cells[p].isEnd <==> p in terms)
    && (forall p <- terms :: cells[p].term == p)
  }

  lemma ExtendFacts(p: string, c: char)
    ensures Extend(p, c) != "" && Extend(p, c)[..|Extend(p, c)| - 1] == p
  {
  }

  lemma ExtendInjective(p: string, c: char, q: string, d: char)
    ensures Extend(p, c) == Extend(q, d) <==> p == q && c == d
  {
    ExtendFacts(p, c);
    ExtendFacts(q, d);
    assert Extend(p, c)[|p|] == c && Extend(q, d)[|q|] == d;
  }

  /** The cells after a new node is hung at `q`, below `p`. */
  ghost predicate Grown(cells: Cells, cells': Cells, p: string, q: string, children: map<char, TrieNode>) {
    && p in cells && q !in cells && cells'.Keys == cells.Keys + {q}
    && (forall x <- cells :: x != p ==> cells'[x] == cells[x])
    && cells'[p] == cells[p].(children := children)
    && cells'[q] == Cell(map[], false, "")
  }

  lemma GrownAt(cells: Cells, cells': Cells, p: string, q: string, children: map<char, TrieNode>)
    requires p in cells && q !in cells && cells'.Keys == cells.Keys + {q}
    requires forall x <- cells :: x != p ==> cells'[x] == cells[x]
    requires cells'[p] == cells[p].(children := children) && cells'[q] == Cell(map[], false, "")
    ensures Grown(cells, cells', p, q, children)
  {
  }

  lemma NewPath(root: TrieNode, at: Paths, cells: Cells, p: string, c: char)
    requires IsTree(root, at, cells) && p in at && c !in cells[p].children
    ensures cells.Keys == at.Keys && Extend(p, c) !in at
  {
  }

  /** Hanging a new node below `p` keeps the tree. */
  lemma ChildKeepsTree(root: TrieNode, at: Paths, cells: Cells, p: string, c: char, child: TrieNode, cells': Cells)
    requires IsTree(root, at, cells) && p in at && c !in cells[p].children && child !in at.Values
    requires Grown(cells, cells', p, Extend(p, c), cells[p].children[c := child])
    ensures IsTree(root, at[Extend(p, c) := child], cells')
  {
    var q := Extend(p, c);
    ExtendFacts(p, c);
    hide Extend;
    var at' := at[q := child];
    forall x, d | x in at'
      ensures d in cells'[x].children <==> Extend(x, d) in at'
      ensures d in cells'[x].children ==> cells'[x].children[d] == at'[Extend(x, d)]
    {
      ExtendFacts(x, d);
      ExtendInjective(x, d, p, c);
    }
    forall x, y | x in at' && y in at' && x != y ensures at'[x] != at'[y] {
      assert x in at ==> at[x] in at.Values;
      assert y in at ==> at[y] in at.Values;
    }
  }

  lemma MarkedWithChild(terms: set<string>, cells: Cells, p: string, q: string, children: map<char, TrieNode>,
                        cells': Cells)
    requires IsMarked(terms, cells) && Grown(cells, cells', p, q, children)
    ensures IsMarked(terms, cells')
  {
  }

  /** Every prefix of a path is a path. */
  lemma {:induction false} PrefixesArePaths(root: TrieNode, at: Paths, cells: Cells, p: string, k: nat)
    requires IsTree(root, at, cells) && p in at && k <= |p|
    ensures p[..k] in at
    decreases |p|
  {
    if k == |p| {
      assert p[..k] == p;
    } else {
      PrefixesArePaths(root, at, cells, p[..|p| - 1], k);
      assert p[..|p| - 1][..k] == p[..k];
    }
  }

  /** Listed once each. */
  predicate Distinct(list: seq<string>) {
    forall i, j :: 0 <= i < j < |list| ==> list[i] != list[j]
  }

  class Trie {
    var root: TrieNode
    /** The node at the end of each path; the terms inserted so far. */
    ghost var at: Paths
    ghost var terms: set<string>

    ghost function Cells(): Cells
      reads this, at.Values
    {
      map p | p in at :: Cell(at[p].children, at[p].isEnd, at[p].term)
    }

    ghost predicate Valid()
      reads this, at.Values
    {
      IsTree(root, at, Cells()) && IsMarked(terms, Cells())
    }

    constructor ()
      ensures Valid() && terms == {} && fresh(at.Values)
    {
      var r := new TrieNode();
      root := r;
      at := map["" := r];
      terms := {};
    }

    method Insert(term: string)
      requires Valid()
      modifies this, at.Values
      ensures Valid() && terms == old(terms) + {term}
      ensures root == old(root) && fresh(at.Values - old(at.Values))
    {
      hide IsTree, IsMarked, Extend;
      EmptyPath(root, at, Cells());
      var node: TrieNode := root;
      ghost var path := term[..0];
      for i := 0 to |term|
        invariant Valid() && terms == old(terms) && root == old(root)
        invariant fresh(at.Values - old(at.Values))
        invariant path == term[..i] && path in at && at[path] == node
      {
        NextPrefix(term, i);
        ghost var next := term[..i + 1];
        if term[i] !in node.children {
          AddChild(path, term[i], node, next);
        }
        Step(path, term[i]);
        node := node.children[term[i]];
        path := next;
      }
      assert term[..|term|] == term;
      Mark(term, node);
    }

    lemma Step(p: string, c: char)
      requires Valid() && p in at
      ensures c in at[p].children <==> Extend(p, c) in at
      ensures c in at[p].children ==> at[p].children[c] == at[Extend(p, c)]
    {
      assert c in Cells()[p].children <==> Extend(p, c) in at;
    }

    method AddChild(ghost p: string, c: char, node: TrieNode, ghost q: string)
      requires Valid() && p in at && node == at[p] && c !in node.children && q == Extend(p, c)
      modifies this`at, node`children
      ensures Valid() && q in at && fresh(at[q]) && at == old(at)[q := at[q]]
    {
      hide IsTree, IsMarked, Extend, Grown;
      NewPath(root, at, Cells(), p, c);
      DistinctNodes(p);
      var child := new TrieNode();
      ghost var before, at0 := Cells(), at;
      HangChild(p, c, node, q, child);
      ChildKeepsTree(root, at0, before, p, c, child, Cells());
      MarkedWithChild(terms, before, p, q, before[p].children[c := child], Cells());
    }

    method HangChild(ghost p: string, c: char, node: TrieNode, ghost q: string, child: TrieNode)
      requires p in at && node == at[p] && q !in at && child !in at.Values
      requires forall x <- at :: x != p ==> at[x] != node
      requires child.children == map[] && !child.isEnd && child.term == ""
      modifies this`at, node`children
      ensures at == old(at)[q := child]
      ensures Grown(old(Cells()), Cells(), p, q, old(Cells())[p].children[c := child])
    {
      hide Grown;
      ghost var before, at0 := Cells(), at;
      assert node in at.Values;
      node.children := node.children[c := child];
      at := at[q := child];
      ghost var now := Cells();
      forall x | x in before ensures x in at && at[x] == at0[x] {
      }
      GrownAt(before, now, p, q, before[p].children[c := child]);
    }

    lemma DistinctNodes(p: string)
      requires Valid() && p in at
      ensures forall q <- at :: q != p ==> at[q] != at[p]
    {
    }

    method Mark(p: string, node: TrieNode)
      requires Valid() && p in at && at[p] == node
      modifies this`terms, node`isEnd, node`term
      ensures Valid() && terms == old(terms) + {p}
    {
      hide IsTree, IsMarked;
      ghost var before := Cells();
      DistinctNodes(p);
      node.isEnd := true;
      node.term := p;
      terms := terms + {p};
      assert EndMarked(before, Cells(), p);
      MarkingKeeps(root, at, before, old(terms), p, Cells());
    }

    /** The paths that continue `p`. */
    ghost function Below(p: string): set<string>
      reads this
    {
      set q | q in at && p <= q
    }

    method CollectTerms(node: TrieNode, ghost p: string) returns (results: seq<string>)
      requires Valid() && p in at && at[p] == node
      ensures Distinct(results)
      ensures forall t :: t in results <==> t in terms && p <= t
      decreases Below(p), 1
    {
      results := [];
      EndIsTerm(p);
      if node.isEnd {
        results := [node.term];
      }
      AllThroughChildren(p);
      ListedStart(results, terms, p);
      hide IsTree, IsMarked, Listed, Distinct;
      results := CollectChildren(node, p, results);
      ListedAll(results, terms, p, node.children.Keys);
    }

    method CollectChildren(node: TrieNode, ghost p: string, before: seq<string>) returns (results: seq<string>)
      requires Valid() && p in at && at[p] == node
      requires Listed(before, terms, p, {})
      ensures Listed(results, terms, p, node.children.Keys)
      decreases Below(p), 0
    {
      hide IsTree, IsMarked, Extend, Listed, Distinct;
      results := before;
      var todo := node.children.Keys;
      ghost var seen: set<char> := {};
      while todo != {}
        invariant todo + seen == node.children.Keys && todo !! seen
        invariant Listed(results, terms, p, seen)
        decreases todo
      {
        var c :| c in todo;
        Step(p, c);
        ShrinksBelow(p, c);
        var more := CollectTerms(node.children[c], Extend(p, c));
        ListedMore(results, terms, p, seen, c, more);
        results := results + more;
        todo, seen := todo - {c}, seen + {c};
      }
      assert seen == node.children.Keys;
    }

    lemma EndIsTerm(p: string)
      requires Valid() && p in at
      ensures at[p].isEnd <==> p in terms
      ensures at[p].isEnd ==> at[p].term == p
    {
      assert p in Cells();
    }

    lemma ShrinksBelow(p: string, c: char)
      requires p in at
      ensures Below(Extend(p, c)) < Below(p)
    {
      assert p in Below(p) && p !in Below(Extend(p, c));
    }

    lemma AllThroughChildren(p: string)
      requires Valid() && p in at
      ensures forall t <- terms :: p <= t && t != p ==> t[|p|] in at[p].children
    {
      forall t | t in terms && p <= t && t != p ensures t[|p|] in at[p].children {
        PrefixesArePaths(root, at, Cells(), t, |p| + 1);
        assert t[..|p| + 1] == Extend(p, t[|p|]);
        Step(p, t[|p|]);
      }
    }

    /** All inserted terms with the prefix, once each. */
    method Search(prefix: string) returns (results: seq<string>)
      requires Valid()
      ensures Distinct(results)
      ensures forall t :: t in results <==> t in terms && prefix <= t
    {
      hide IsTree, IsMarked, Extend;
      EmptyPath(root, at, Cells());
      var node: TrieNode := root;
      for i := 0 to |prefix|
        invariant prefix[..i] in at && at[prefix[..i]] == node
      {
        NextPrefix(prefix, i);
        Step(prefix[..i], prefix[i]);
        if prefix[i] !in node.children {
          forall t | t in terms ensures !(prefix <= t) {
            PrefixOfTerm(t, prefix, i + 1);
          }
          return [];
        }
        node := node.children[prefix[i]];
      }
      assert prefix[..|prefix|] == prefix;
      results := CollectTerms(node, prefix);
    }

    lemma PrefixOfTerm(t: string, prefix: string, k: nat)
      requires Valid() && t in terms && k <= |prefix|
      ensures prefix <= t ==> prefix[..k] in at
    {
      assert t in at;
      hide IsTree, IsMarked;
      if prefix <= t {
        PrefixesArePaths(root, at, Cells(), t, k);
        SamePrefix(t, prefix, k);
      }
    }
  }

  lemma SamePrefix(t: string, prefix: string, k: nat)
    requires prefix <= t && k <= |prefix|
    ensures t[..k] == prefix[..k]
  {
  }

  lemma EmptyPath(root: TrieNode, at: Paths, cells: Cells)
    requires IsTree(root, at, cells)
    ensures "" in at && at[""] == root
  {
  }

  lemma NextPrefix(s: string, i: nat)
    requires i < |s|
    ensures Extend(s[..i], s[i]) == s[..i + 1]
  {
  }

  lemma TreeIgnoresMarks(root: TrieNode, at: Paths, cells: Cells, cells': Cells)
    requires IsTree(root, at, cells) && cells'.Keys == cells.Keys
    requires forall p <- cells :: cells'[p].children == cells[p].children
    ensures IsTree(root, at, cells')
  {
    hide Extend;
  }

  /** The cells after `p` is marked as the end of a term. */
  ghost predicate EndMarked(cells: Cells, cells': Cells, p: string) {
    && p in cells && cells'.Keys == cells.Keys
    && (forall x <- cells :: x != p ==> cells'[x] == cells[x])
    && cells'[p] == cells[p].(isEnd := true, term := p)
  }

  lemma MarksGrow(terms: set<string>, cells: Cells, p: string, cells': Cells)
    requires IsMarked(terms, cells) && EndMarked(cells, cells', p)
    ensures IsMarked(terms + {p}, cells')
  {
  }

  lemma MarkingKeeps(root: TrieNode, at: Paths, cells: Cells, terms: set<string>, p: string, cells': Cells)
    requires IsTree(root, at, cells) && IsMarked(terms, cells) && EndMarked(cells, cells', p)
    ensures IsTree(root, at, cells') && IsMarked(terms + {p}, cells')
  {
    hide IsTree, IsMarked, Extend;
    TreeIgnoresMarks(root, at, cells, cells');
    MarksGrow(terms, cells, p, cells');
  }

  /** What is listed of the terms below `p`: `p` itself and those continuing with one of `seen`. */
  ghost predicate Listed(results: seq<string>, terms: set<string>, p: string, seen: set<char>) {
    && Distinct(results)
    && forall t :: t in results <==> t in terms && p <= t && (t == p || t[|p|] in seen)
  }

  lemma ListedStart(results: seq<string>, terms: set<string>, p: string)
    requires results == if p in terms then [p] else []
    ensures Listed(results, terms, p, {})
  {
  }

  lemma ListedAll(results: seq<string>, terms: set<string>, p: string, kids: set<char>)
    requires Listed(results, terms, p, kids)
    requires forall t <- terms :: p <= t && t != p ==> t[|p|] in kids
    ensures Distinct(results) && forall t :: t in results <==> t in terms && p <= t
  {
  }

  lemma ListedMore(results: seq<string>, terms: set<string>, p: string, seen: set<char>, c: char, more: seq<string>)
    requires Listed(results, terms, p, seen) && c !in seen
    requires Distinct(more) && forall t :: t in more <==> t in terms && Extend(p, c) <= t
    ensures Listed(results + more, terms, p, seen + {c})
  {
    forall t: string ensures Extend(p, c) <= t <==> p <= t && |t| > |p| && t[|p|] == c {
    }
    hide Extend;
    forall i, j | 0 <= i < |results| && 0 <= j < |more| ensures results[i] != more[j] {
      assert results[i] in results && more[j] in more;
    }
  }
}
