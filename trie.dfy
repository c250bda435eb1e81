/** The spelling corrector's trie: a root `TrieNode` and, for the proofs, the
    map `At` from every path that exists in the trie to the node it reaches.
    A word is stored when the node at its path is an entry. */
module Tries {
  import opened TrieNodes
  import opened EditWalk

  datatype Option<T> = None | Some(value: T)

  /** The character of slot `i` of a child array that starts at `base`. */
  function CharAt(base: char, i: int): char
    requires IsCharCode(base as int + i)
  {
    (base as int + i) as char
  }

  /** The character of a filled slot leads back to that slot: looking it up
      with `GetChild` gives the child the slot holds. */
  lemma SlotCharacter(n: TrieNode, i: int)
    requires n.Valid() && 0 <= i < |n.GetAllChildren()| && n.GetAllChildren()[i] != null
    ensures IsCharCode(n.baseChar as int + i)
    ensures n.GetChild(CharAt(n.baseChar, i)) == n.GetAllChildren()[i]
  {
    n.SlotFilled(i);
    n.ChildSlot(n.baseChar as int + i);
  }

  /** `x` starts with `p`. */
  ghost predicate Extends(x: string, p: string) {
    |p| <= |x| && x[..|p|] == p
  }

  /** Words that start with `p + [c]` start with `p`. */
  lemma ExtendsSnoc(xs: seq<string>, p: string, c: char)
    requires forall x :: x in xs ==> Extends(x, p + [c])
    ensures forall x :: x in xs ==> Extends(x, p)
  {
    forall x | x in xs ensures Extends(x, p) {
      assert x[..|p|] == x[..|p| + 1][..|p|];
    }
  }

  /** `x` is a word of `words` that extends `p`. */
  ghost predicate Ext(words: set<string>, p: string, x: string) {
    x in words && Extends(x, p)
  }

  /** The results for an exhausted word: the words reached by inserting
      characters, and `p` itself when it is stored. */
  lemma JoinEnd(words: set<string>, d: int, p: string, inserted: seq<string>, ending: seq<string>)
    requires d >= 0
    requires forall x :: x in inserted <==> Ext(words, p, x) && |p| < |x| && Reachable([], x[|p| + 1..], d - 1)
    requires forall x :: x in ending <==> x == p && p in words
    ensures forall x :: x in inserted + ending <==> Ext(words, p, x) && Reachable([], x[|p|..], d)
  {
    forall x | Ext(words, p, x)
      ensures x in inserted + ending <==> Reachable([], x[|p|..], d)
    {
      if |p| < |x| {
        assert x[|p|..][1..] == x[|p| + 1..];
      } else {
        assert x == x[..|p|] == p;
      }
    }
  }

  /** The results with no edits left: the words reached by inserting and the
      words that keep the next character. */
  lemma JoinExact(words: set<string>, s: string, p: string, inserted: seq<string>, kept: seq<string>)
    requires s != []
    requires forall x :: x in inserted <==> Ext(words, p, x) && |p| < |x| && Reachable(s, x[|p| + 1..], -1)
    requires forall x :: x in kept <==> Ext(words, p, x) && |p| < |x| && x[|p|] == s[0] && Reachable(s[1..], x[|p| + 1..], 0)
    ensures forall x :: x in inserted + kept <==> Ext(words, p, x) && Reachable(s, x[|p|..], 0)
  {
    forall x | Ext(words, p, x)
      ensures x in inserted + kept <==> Reachable(s, x[|p|..], 0)
    {
      if |p| < |x| {
        assert x[|p|..][1..] == x[|p| + 1..];
      }
    }
  }

  /** The results with edits left: inserting, keeping, deleting, replacing
      and swapping together give exactly the words the edit walk reaches. */
  lemma JoinEdits(words: set<string>, s: string, d: int, p: string,
                  inserted: seq<string>, kept: seq<string>, deleted: seq<string>, replaced: seq<string>, swapped: seq<string>)
    requires s != [] && d > 0
    requires forall x :: x in inserted <==> Ext(words, p, x) && |p| < |x| && Reachable(s, x[|p| + 1..], d - 1)
    requires forall x :: x in kept <==> Ext(words, p, x) && |p| < |x| && x[|p|] == s[0] && Reachable(s[1..], x[|p| + 1..], d)
    requires forall x :: x in deleted <==> Ext(words, p, x) && Reachable(s[1..], x[|p|..], d - 1)
    requires forall x :: x in replaced <==> Ext(words, p, x) && |p| < |x| && Some(s[0]) != Some(x[|p|]) && Reachable(s[1..], x[|p| + 1..], d - 1)
    requires |s| > 1 ==> forall x :: x in swapped <==> Ext(words, p, x) && |p| < |x| && x[|p|] == s[1] && Reachable([s[0]] + s[2..], x[|p| + 1..], d - 1)
    requires |s| <= 1 ==> swapped == []
    ensures forall x :: x in inserted + kept + deleted + replaced + swapped <==> Ext(words, p, x) && Reachable(s, x[|p|..], d)
  {
    forall x | Ext(words, p, x)
      ensures x in inserted + kept + deleted + replaced + swapped <==> Reachable(s, x[|p|..], d)
    {
      if |p| < |x| {
        assert x[|p|..][1..] == x[|p| + 1..];
      }
    }
  }

  class Trie {
    var root: TrieNode

    /** The node reached from the root along each path that exists. */
    ghost var At: map<string, TrieNode>
    /** Every node of the trie and every child array. */
    ghost var Repr: set<object>
    /** The path of each node and of each child array. */
    ghost var PathOf: map<object, string>

    /** Every node of `At` is a valid node; it and its child array are in `Repr`. */
    ghost predicate NodesValid()
      reads this, Repr
    {
      forall p :: p in At ==>
        && At[p] in Repr
        && (At[p].nodes != null ==> At[p].nodes in Repr)
        && At[p].Valid()
    }

    /** Every child edge extends a path by its character. */
    ghost predicate EdgesDown()
      reads this, Repr
      requires NodesValid()
    {
      forall p, c: char {:trigger p + [c]} :: p in At && c as int in At[p].Children ==>
        p + [c] in At && At[p + [c]] == At[p].Children[c as int]
    }

    /** Every non-empty path hangs off its parent path. */
    ghost predicate EdgesUp()
      reads this, Repr
      requires NodesValid()
    {
      forall p, c: char {:trigger p + [c]} :: p + [c] in At ==> p in At && c as int in At[p].Children
    }

    /** Distinct paths lead to distinct nodes, with distinct child arrays:
        `PathOf` maps each node and each child array back to its path. */
    ghost predicate Unshared()
      reads this, Repr
      requires NodesValid()
    {
      forall p :: p in At ==>
        && At[p] in PathOf && PathOf[At[p]] == p
        && (At[p].nodes != null ==> At[p].nodes in PathOf && PathOf[At[p].nodes] == p)
    }

    /** `At` describes a tree rooted at `root`. */
    ghost predicate Valid()
      reads this, Repr
    {
      && "" in At && At[""] == root
      && NodesValid() && EdgesDown() && EdgesUp() && Unshared()
    }

    /** The stored words: the paths whose node is an entry. */
    ghost function Words(): set<string>
      reads this, Repr
      requires Valid()
    {
      set p | p in At && At[p].isEntry
    }

    constructor ()
      ensures Valid() && Words() == {} && fresh(Repr)
    {
      var r := new TrieNode();
      root := r;
      At := map["" := r];
      Repr := {r};
      PathOf := map[r := ""];
    }

    /** Every prefix of a path of the trie is a path of the trie. */
    lemma {:induction false} PrefixClosed(q: string, j: nat)
      requires Valid() && q in At && j <= |q|
      ensures q[..j] in At
      decreases |q| - j
    {
      if j < |q| {
        var parent := q[..|q| - 1];
        assert q == parent + [q[|q| - 1]];
        assert parent[..j] == q[..j];
        PrefixClosed(parent, j);
      } else {
        assert q[..j] == q;
      }
    }

    /** The node at `p` has a child for `c` exactly when `p + [c]` is a path,
        and that child is the node at `p + [c]`. */
    lemma ChildAt(p: string, c: char)
      requires Valid() && p in At
      ensures c as int in At[p].Children <==> p + [c] in At
      ensures p + [c] in At ==> At[p + [c]] == At[p].Children[c as int]
      ensures At[p] in Repr && (At[p].nodes != null ==> At[p].nodes in Repr)
    {
    }

    /** A child of a node of the trie is a node of the trie. */
    lemma ChildInTrie(n: TrieNode, k: int)
      requires Valid() && n in At.Values && n.Valid() && k in n.Children
      ensures n.Children[k] in At.Values
    {
      var p :| p in At && At[p] == n;
      assert n.Stores();
      var c := k as char;
      assert At[p + [c]] == n.Children[k];
    }

    method Contains(key: string) returns (found: bool)
      requires Valid()
      ensures found <==> key in Words()
    {
      var node: TrieNode? := root;
      var i := 0;
      while i < |key|
        invariant 0 <= i <= |key| && key[..i] in At && At[key[..i]] == node
      {
        node := node.GetChild(key[i]);
        if node == null {
          assert key[..i + 1] == key[..i] + [key[i]];
          assert key[..i + 1] !in At;
          if key in At {
            PrefixClosed(key, i + 1);
          }
          return false;
        }
        assert At[key[..i] + [key[i]]] == node;
        assert key[..i] + [key[i]] == key[..i + 1];
        i := i + 1;
      }
      assert key[..i] == key;
      found := node.isEntry;
    }

    /** One step of `Insert`: descends from the node at `key[..i]` to its child
        for `key[i]`, creating the child when it is missing. */
    method Descend(node: TrieNode, key: string, i: nat) returns (child: TrieNode)
      requires Valid() && i < |key| && key[..i] in At && At[key[..i]] == node
      modifies this, Repr
      ensures Valid() && fresh(Repr - old(Repr)) && root == old(root)
      ensures key[..i + 1] in At && At[key[..i + 1]] == child
      ensures Words() == old(Words())
    {
      ghost var p := key[..i];
      ghost var q := key[..i + 1];
      assert q == p + [key[i]];
      ChildAt(p, key[i]);
      ghost var had := key[i] as int in node.Children;
      ghost var oldNodes := node.nodes;
      child := node.AddChild(key[i]);
      ghost var added: set<object> := {child, node.nodes};
      At, Repr, PathOf := At[q := child], Repr + added, PathOf[child := q][node.nodes := p];
      StepValid(p, key[i], node, child, oldNodes);
    }

    /** `Descend`'s step keeps the trie valid and leaves every flag alone. */
    twostate lemma StepValid(new p: string, new c: char, new node: TrieNode, new child: TrieNode, new oldNodes: array?<TrieNode?>)
      requires old(Valid()) && p in old(At) && old(At[p]) == node && oldNodes == old(node.nodes)
      requires At == old(At)[p + [c] := child] && Repr == old(Repr) + {child, node.nodes} && root == old(root)
      requires PathOf == old(PathOf)[child := p + [c]][node.nodes := p]
      requires node.Valid() && node.nodes != null && (node.nodes == oldNodes || fresh(node.nodes))
      requires node.isEntry == old(node.isEntry)
      requires c as int in old(node.Children) ==> node.Children == old(node.Children) && child == old(node.Children)[c as int]
      requires c as int !in old(node.Children) ==>
                 && node.Children == old(node.Children)[c as int := child]
                 && fresh(child) && child.Valid() && child.Children == map[] && child.nodes == null && !child.isEntry
      requires forall m: TrieNode :: m in old(Repr) && m != node ==> unchanged(m)
      requires forall a: array<TrieNode?> :: a in old(Repr) && a != oldNodes ==> unchanged(a)
      ensures Valid() && Words() == old(Words()) && fresh(Repr - old(Repr))
    {
      StepFresh(p, c, node, child, oldNodes);
      StepNodesValid(p, c, node, child, oldNodes);
      StepEdges(p, c, node, child);
      StepUnshared(p, c, node, child, oldNodes);
      forall r | r in At ensures At[r].isEntry <==> r in old(Words()) {
        if r in old(At) {
          assert At[r] == old(At[r]) && At[r] in old(Repr);
        } else {
          assert r == p + [c] && At[r] == child;
        }
      }
    }

    /** What `Descend` adds to the footprint is either already there or new. */
    twostate lemma StepFresh(new p: string, new c: char, new node: TrieNode, new child: TrieNode, new oldNodes: array?<TrieNode?>)
      requires old(Valid()) && p in old(At) && old(At[p]) == node && oldNodes == old(node.nodes)
      requires Repr == old(Repr) + {child, node.nodes}
      requires node.nodes == oldNodes || fresh(node.nodes)
      requires c as int in old(node.Children) ==> child == old(node.Children)[c as int]
      requires c as int !in old(node.Children) ==> fresh(child)
      ensures fresh(Repr - old(Repr))
    {
      if c as int in old(node.Children) {
        assert old(At[p + [c]]) == child;
      }
    }

    /** After `Descend` adds the edge `p + [c]`, every node is still valid. */
    twostate lemma StepNodesValid(new p: string, new c: char, new node: TrieNode, new child: TrieNode, new oldNodes: array?<TrieNode?>)
      requires old(Valid()) && p in old(At) && old(At[p]) == node && oldNodes == old(node.nodes)
      requires At == old(At)[p + [c] := child] && Repr == old(Repr) + {child, node.nodes}
      requires node.Valid() && node.nodes != null
      requires c as int in old(node.Children) ==> child == old(node.Children)[c as int]
      requires c as int !in old(node.Children) ==> fresh(child) && child.Valid() && child.nodes == null
      requires forall m: TrieNode :: m in old(Repr) && m != node ==> unchanged(m)
      requires forall a: array<TrieNode?> :: a in old(Repr) && a != oldNodes ==> unchanged(a)
      ensures NodesValid()
    {
      forall r | r in At
        ensures At[r] in Repr && (At[r].nodes != null ==> At[r].nodes in Repr) && At[r].Valid()
      {
        if r != p + [c] && r != p {
          var m := At[r];
          assert m == old(At[r]) && m != node;
          assert m.nodes != null ==> m.nodes != oldNodes;
          assert old(m.Valid());
        } else if r == p + [c] && c as int in old(node.Children) {
          assert child == old(At[p + [c]]);
          assert child != node by { assert p + [c] != p; }
          assert old(child.Valid());
        }
      }
    }

    /** After `Descend` adds the edge `p + [c]`, the edges still match `At`. */
    twostate lemma StepEdges(new p: string, new c: char, new node: TrieNode, new child: TrieNode)
      requires old(Valid()) && p in old(At) && old(At[p]) == node
      requires At == old(At)[p + [c] := child] && NodesValid()
      requires c as int in old(node.Children) ==> node.Children == old(node.Children) && child == old(node.Children)[c as int]
      requires c as int !in old(node.Children) ==> node.Children == old(node.Children)[c as int := child] && fresh(child) && child.Children == map[]
      requires forall m: TrieNode :: m in old(Repr) && m != node ==> unchanged(m)
      ensures EdgesDown() && EdgesUp()
    {
      var q := p + [c];
      var i := |p|;
      forall r, d: char | r in At && d as int in At[r].Children
        ensures r + [d] in At && At[r + [d]] == At[r].Children[d as int]
      {
        if r == p {
          if d != c {
            assert r + [d] != q by { assert (r + [d])[i] != q[i]; }
          }
        } else if r == q {
          assert |r + [d]| != |q|;
          if !fresh(child) {
            assert child == old(At[q]) && child != node;
          }
        } else {
          assert (r + [d])[..|r|] == r;
        }
      }
      forall r, d: char | r + [d] in At
        ensures r in At && d as int in At[r].Children
      {
        if r + [d] == q {
          assert r == (r + [d])[..i] == p;
          assert d == (r + [d])[i] == c;
        }
      }
    }

    /** After `Descend` adds the edge `p + [c]`, nodes and arrays are still unshared. */
    twostate lemma StepUnshared(new p: string, new c: char, new node: TrieNode, new child: TrieNode, new oldNodes: array?<TrieNode?>)
      requires old(Valid()) && p in old(At) && old(At[p]) == node && oldNodes == old(node.nodes)
      requires At == old(At)[p + [c] := child] && NodesValid()
      requires PathOf == old(PathOf)[child := p + [c]][node.nodes := p]
      requires node.nodes == oldNodes || fresh(node.nodes)
      requires c as int in old(node.Children) ==> child == old(node.Children)[c as int]
      requires c as int !in old(node.Children) ==> fresh(child) && child.nodes == null
      requires forall m: TrieNode :: m in old(Repr) && m != node ==> unchanged(m)
      ensures Unshared()
    {
      var q := p + [c];
      forall r | r in At
        ensures At[r] in PathOf && PathOf[At[r]] == r
        ensures At[r].nodes != null ==> At[r].nodes in PathOf && PathOf[At[r].nodes] == r
      {
        if r == q {
          if c as int in old(node.Children) {
            assert child == old(At[q]);
          }
        } else if r != p {
          assert At[r] == old(At[r]) && At[r] != node;
          assert At[r] != child;
          assert At[r].nodes != null ==> At[r].nodes != node.nodes;
        }
      }
    }

    /** Adds `key` to the stored words. */
    method Insert(key: string)
      requires Valid()
      modifies this, Repr
      ensures Valid() && fresh(Repr - old(Repr)) && root == old(root)
      ensures Words() == old(Words()) + {key}
    {
      var node := root;
      var i := 0;
      while i < |key|
        invariant Valid() && fresh(Repr - old(Repr)) && root == old(root)
        invariant 0 <= i <= |key| && key[..i] in At && At[key[..i]] == node
        invariant Words() == old(Words())
      {
        node := Descend(node, key, i);
        i := i + 1;
      }
      assert key[..i] == key;
      label Before:
      node.isEntry := true;
      Marked@Before(key);
    }

    /** Setting the flag of the node at `key` keeps the trie valid and adds
        exactly `key` to the words. */
    twostate lemma Marked(new key: string)
      requires old(Valid()) && key in old(At) && At == old(At) && Repr == old(Repr) && PathOf == old(PathOf) && root == old(root)
      requires At[key].isEntry
      requires forall m: TrieNode :: m in old(Repr) && m != At[key] ==> unchanged(m)
      requires At[key].baseChar == old(At[key].baseChar) && At[key].nodes == old(At[key].nodes)
      requires At[key].Children == old(At[key].Children)
      requires forall a: array<TrieNode?> :: a in old(Repr) ==> unchanged(a)
      ensures Valid() && Words() == old(Words()) + {key}
    {
      forall r | r in At
        ensures At[r] in Repr && (At[r].nodes != null ==> At[r].nodes in Repr) && At[r].Valid()
      {
        assert old(At[r].Valid());
      }
      assert NodesValid();
      forall r | r in At ensures At[r].isEntry <==> r in old(Words()) || r == key {
        if r != key {
          assert At[r] != At[key];
        }
      }
    }

    /** The words of the trie similar to `word`: every stored word that the
        edit walk reaches from `node` (the root when `node` is null) with at
        most `maxDist` edits, each prefixed by `built`. A word may be listed
        more than once. */
    function FindSimilar(word: string, maxDist: int, node: TrieNode?, built: string): (r: seq<string>)
      requires Valid() && (node == null || node in At.Values)
      reads this, Repr
      ensures forall x :: x in r ==> Extends(x, built)
      decreases maxDist, |word|, 0, 0
    {
      if maxDist < 0 then []
      else
        var n := if node == null then root else node;
        assert n.Valid() by { var p :| p in At && At[p] == n; }
        var inserted := EachChild(word, maxDist - 1, n, built, 0, None);
        if word == [] then
          inserted + (if n.isEntry then [built] else [])
        else
          var kept :=
            if n.Contains(word[0]) then
              ChildInTrie(n, word[0] as int);
              var found := FindSimilar(word[1..], maxDist, n.GetChild(word[0]), built + [word[0]]);
              ExtendsSnoc(found, built, word[0]);
              found
            else [];
          if maxDist == 0 then inserted + kept
          else
            var deleted := FindSimilar(word[1..], maxDist - 1, n, built);
            var replaced := EachChild(word[1..], maxDist - 1, n, built, 0, Some(word[0]));
            var swapped :=
              if |word| > 1 && n.Contains(word[1]) then
                ChildInTrie(n, word[1] as int);
                var found := FindSimilar([word[0]] + word[2..], maxDist - 1, n.GetChild(word[1]), built + [word[1]]);
                ExtendsSnoc(found, built, word[1]);
                found
              else [];
            inserted + kept + deleted + replaced + swapped
    }

    /** The results of `FindSimilar(rest, d, child, built + ch)` for the children
        of `n` in slots `i..` (character `ch`), leaving out the child for `skip`. */
    function EachChild(rest: string, d: int, n: TrieNode, built: string, i: nat, skip: Option<char>): (r: seq<string>)
      requires Valid() && n in At.Values && n.Valid() && i <= |n.GetAllChildren()|
      reads this, Repr
      ensures forall x :: x in r ==> Extends(x, built)
      decreases d, |rest|, 1, |n.GetAllChildren()| - i
    {
      var slots := n.GetAllChildren();
      if i == |slots| then []
      else
        var here :=
          if slots[i] != null && skip != Some(CharAt(n.baseChar, i)) then
            ChildInTrie(n, n.baseChar as int + i);
            var found := FindSimilar(rest, d, slots[i], built + [CharAt(n.baseChar, i)]);
            ExtendsSnoc(found, built, CharAt(n.baseChar, i));
            found
          else [];
        here + EachChild(rest, d, n, built, i + 1, skip)
    }

    /** `x` is a word that `FindSimilar(s, d, At[p], p)` should find: a stored
        word that extends `p` by a tail the edit walk reaches from `s`. */
    ghost predicate Similar(s: string, d: int, p: string, x: string)
      reads this, Repr
      requires Valid()
    {
      Ext(Words(), p, x) && Reachable(s, x[|p|..], d)
    }

    /** `x` is a word that `EachChild(rest, d, At[p], p, i, skip)` should find:
        a stored word that continues `p` through a child in slot `i` or later,
        other than `skip`, with a tail the edit walk reaches from `rest`. */
    ghost predicate SimilarVia(rest: string, d: int, p: string, i: nat, skip: Option<char>, x: string)
      reads this, Repr
      requires Valid() && p in At
    {
      && x in Words() && |p| < |x| && x[..|p|] == p
      && x[|p|] as int - At[p].baseChar as int >= i
      && skip != Some(x[|p|])
      && Reachable(rest, x[|p| + 1..], d)
    }

    /** The character after a prefix of a path labels a child edge. */
    lemma ChildOnPath(p: string, x: string)
      requires Valid() && x in At && |p| < |x| && x[..|p|] == p
      ensures p in At && x[..|p| + 1] in At && x[..|p| + 1] == p + [x[|p|]]
      ensures x[|p|] as int in At[p].Children && At[x[..|p| + 1]] == At[p].Children[x[|p|] as int]
      ensures 0 <= x[|p|] as int - At[p].baseChar as int < |At[p].GetAllChildren()|
    {
      PrefixClosed(x, |p| + 1);
      assert x[..|p| + 1] == p + [x[|p|]];
      assert At[p].Valid();
      At[p].ChildSlot(x[|p|] as int);
    }

    /** `FindSimilar` from the node at path `p`, with `p` built so far, finds
        exactly the `Similar` words: it is sound and complete for the edit walk. */
    lemma {:induction false} FindSimilarExact(s: string, d: int, p: string)
      requires Valid() && p in At
      ensures forall x :: x in FindSimilar(s, d, At[p], p) <==> Similar(s, d, p, x)
      decreases d, |s|, 0, 0, 1
    {
      if d < 0 {
        return;
      }
      var n := At[p];
      FindSimilarSteps(s, d, p);
      EachChildPart(s, d - 1, p, None);
      var inserted := EachChild(s, d - 1, n, p, 0, None);
      if s == [] {
        JoinEnd(Words(), d, p, inserted, if n.isEntry then [p] else []);
        return;
      }
      ViaPart(s[0], s[1..], d, p);
      if d == 0 {
        JoinExact(Words(), s, p, inserted, Via(s[0], s[1..], d, n, p));
        return;
      }
      FindSimilarExact(s[1..], d - 1, p);
      EachChildPart(s[1..], d - 1, p, Some(s[0]));
      if |s| > 1 {
        ViaPart(s[1], [s[0]] + s[2..], d - 1, p);
      }
      JoinEdits(Words(), s, d, p, inserted, Via(s[0], s[1..], d, n, p), FindSimilar(s[1..], d - 1, n, p),
                EachChild(s[1..], d - 1, n, p, 0, Some(s[0])),
                if |s| > 1 then Via(s[1], [s[0]] + s[2..], d - 1, n, p) else []);
    }

    /** The results of `FindSimilar(rest, d, child, built + [c])` for the child
        of `node` for `c`, or none when there is no such child. */
    ghost function Via(c: char, rest: string, d: int, node: TrieNode, built: string): seq<string>
      requires Valid() && node in At.Values && node.Valid()
      reads this, Repr
    {
      if node.Contains(c) then
        ChildInTrie(node, c as int);
        FindSimilar(rest, d, node.GetChild(c), built + [c])
      else []
    }

    /** `FindSimilar` from the node at `p`: the results of each edit, in the
        order they are tried. */
    lemma FindSimilarSteps(s: string, d: int, p: string)
      requires Valid() && p in At && d >= 0
      ensures At[p].Valid()
      ensures s == [] ==>
                FindSimilar(s, d, At[p], p)
                  == EachChild(s, d - 1, At[p], p, 0, None) + (if At[p].isEntry then [p] else [])
      ensures s != [] && d == 0 ==>
                FindSimilar(s, d, At[p], p) == EachChild(s, d - 1, At[p], p, 0, None) + Via(s[0], s[1..], d, At[p], p)
      ensures s != [] && d > 0 ==>
                FindSimilar(s, d, At[p], p)
                  == EachChild(s, d - 1, At[p], p, 0, None)
                     + Via(s[0], s[1..], d, At[p], p)
                     + FindSimilar(s[1..], d - 1, At[p], p)
                     + EachChild(s[1..], d - 1, At[p], p, 0, Some(s[0]))
                     + (if |s| > 1 then Via(s[1], [s[0]] + s[2..], d - 1, At[p], p) else [])
    {
      assert At[p].Valid();
    }

    /** The words found through the child for `c` of the node at `p`: exactly
        the stored words that continue `p` with `c` and a tail the edit walk
        reaches from `rest`. */
    lemma {:induction false} ViaPart(c: char, rest: string, d: int, p: string)
      requires Valid() && p in At
      ensures At[p].Valid()
      ensures forall x :: x in Via(c, rest, d, At[p], p) <==>
                Ext(Words(), p, x) && |p| < |x| && x[|p|] == c && Reachable(rest, x[|p| + 1..], d)
      decreases d, |rest|, 0, 0, 2
    {
      assert At[p].Valid();
      ChildAt(p, c);
      if c as int in At[p].Children {
        FindSimilarExact(rest, d, p + [c]);
      }
      forall x ensures x in Via(c, rest, d, At[p], p) <==>
                Ext(Words(), p, x) && |p| < |x| && x[|p|] == c && Reachable(rest, x[|p| + 1..], d)
      {
        PrefixSnoc(x, p, c);
        if Ext(Words(), p, x) && |p| < |x| {
          ChildOnPath(p, x);
        }
      }
    }

    /** `EachChild` over all the slots of the node at `p`: exactly the stored
        words that continue `p` with a character other than `skip` and a tail
        the edit walk reaches from `rest`. */
    lemma {:induction false} EachChildPart(rest: string, d: int, p: string, skip: Option<char>)
      requires Valid() && p in At
      ensures At[p].Valid()
      ensures forall x :: x in EachChild(rest, d, At[p], p, 0, skip) <==>
                Ext(Words(), p, x) && |p| < |x| && skip != Some(x[|p|]) && Reachable(rest, x[|p| + 1..], d)
      decreases d, |rest|, 1, |At[p].GetAllChildren()| + 1, 0
    {
      assert At[p].Valid();
      EachChildExact(rest, d, p, 0, skip);
      ViaFirst(rest, d, p, skip);
    }

    /** Starting from slot 0 places no bound on the next character. */
    lemma ViaFirst(rest: string, d: int, p: string, skip: Option<char>)
      requires Valid() && p in At
      ensures forall x :: SimilarVia(rest, d, p, 0, skip, x) <==>
                Ext(Words(), p, x) && |p| < |x| && skip != Some(x[|p|]) && Reachable(rest, x[|p| + 1..], d)
    {
      forall x | Ext(Words(), p, x) && |p| < |x|
        ensures x[|p|] as int - At[p].baseChar as int >= 0
      {
        ChildOnPath(p, x);
      }
    }

    /** `EachChild` from the node at path `p` finds exactly the `SimilarVia` words. */
    lemma {:induction false} EachChildExact(rest: string, d: int, p: string, i: nat, skip: Option<char>)
      requires Valid() && p in At && At[p].Valid() && i <= |At[p].GetAllChildren()|
      ensures forall x :: x in EachChild(rest, d, At[p], p, i, skip) <==> SimilarVia(rest, d, p, i, skip, x)
      decreases d, |rest|, 1, |At[p].GetAllChildren()| - i, 1
    {
      var n := At[p];
      var slots := n.GetAllChildren();
      if i == |slots| {
        forall x | SimilarVia(rest, d, p, i, skip, x) ensures false {
          ChildOnPath(p, x);
        }
        return;
      }
      EachChildExact(rest, d, p, i + 1, skip);
      var later := EachChild(rest, d, n, p, i + 1, skip);
      if slots[i] != null && skip != Some(CharAt(n.baseChar, i)) {
        var ch := CharAt(n.baseChar, i);
        SlotChild(p, i);
        var here := FindSimilar(rest, d, slots[i], p + [ch]);
        EachChildStep(rest, d, n, p, i, skip);
        FindSimilarExact(rest, d, p + [ch]);
        SlotTaken(rest, d, p, i, skip, here, later);
      } else {
        EachChildStep(rest, d, n, p, i, skip);
        SlotPassed(rest, d, p, i, skip);
      }
    }

    /** One slot of `EachChild`: the results for slot `i`, then the rest. */
    lemma EachChildStep(rest: string, d: int, n: TrieNode, built: string, i: nat, skip: Option<char>)
      requires Valid() && n in At.Values && n.Valid() && i < |n.GetAllChildren()|
      ensures n.GetAllChildren()[i] != null && skip != Some(CharAt(n.baseChar, i)) ==>
                n.GetAllChildren()[i] in At.Values &&
                EachChild(rest, d, n, built, i, skip)
                  == FindSimilar(rest, d, n.GetAllChildren()[i], built + [CharAt(n.baseChar, i)])
                     + EachChild(rest, d, n, built, i + 1, skip)
      ensures n.GetAllChildren()[i] == null || skip == Some(CharAt(n.baseChar, i)) ==>
                EachChild(rest, d, n, built, i, skip) == EachChild(rest, d, n, built, i + 1, skip)
    {
      if n.GetAllChildren()[i] != null {
        ChildInTrie(n, n.baseChar as int + i);
      }
    }

    /** The child in slot `i` of the node at `p` is the node at `p` extended
        by the slot's character. */
    lemma SlotChild(p: string, i: nat)
      requires Valid() && p in At && At[p].Valid() && i < |At[p].GetAllChildren()|
      requires At[p].GetAllChildren()[i] != null
      ensures IsCharCode(At[p].baseChar as int + i)
      ensures p + [CharAt(At[p].baseChar, i)] in At && At[p + [CharAt(At[p].baseChar, i)]] == At[p].GetAllChildren()[i]
    {
      var n := At[p];
      n.SlotFilled(i);
      n.ChildSlot(n.baseChar as int + i);
    }

    /** The step of `EachChildExact` for a slot whose child is searched. */
    lemma SlotTaken(rest: string, d: int, p: string, i: nat, skip: Option<char>, here: seq<string>, later: seq<string>)
      requires Valid() && p in At && At[p].Valid() && i < |At[p].GetAllChildren()|
      requires IsCharCode(At[p].baseChar as int + i) && skip != Some(CharAt(At[p].baseChar, i))
      requires forall x :: x in later <==> SimilarVia(rest, d, p, i + 1, skip, x)
      requires forall x :: x in here <==> Similar(rest, d, p + [CharAt(At[p].baseChar, i)], x)
      ensures forall x :: x in here + later <==> SimilarVia(rest, d, p, i, skip, x)
    {
      var ch := CharAt(At[p].baseChar, i);
      forall x | x in here ensures SimilarVia(rest, d, p, i, skip, x) {
        PrefixSnoc(x, p, ch);
      }
      forall x | SimilarVia(rest, d, p, i, skip, x) && x !in later ensures x in here {
        PrefixSnoc(x, p, ch);
      }
    }

    /** The step of `EachChildExact` for an empty or skipped slot: no word
        continues through it. */
    lemma SlotPassed(rest: string, d: int, p: string, i: nat, skip: Option<char>)
      requires Valid() && p in At && At[p].Valid() && i < |At[p].GetAllChildren()|
      requires At[p].GetAllChildren()[i] == null || skip == Some(CharAt(At[p].baseChar, i))
      ensures forall x :: SimilarVia(rest, d, p, i, skip, x) ==> SimilarVia(rest, d, p, i + 1, skip, x)
    {
      At[p].SlotFilled(i);
      forall x | SimilarVia(rest, d, p, i, skip, x) ensures SimilarVia(rest, d, p, i + 1, skip, x) {
        ChildOnPath(p, x);
      }
    }

    /** A word extends `p + [c]` exactly when it extends `p` and continues with `c`. */
    lemma PrefixSnoc(x: string, p: string, c: char)
      ensures |p| < |x| && x[..|p| + 1] == p + [c] <==> |p| < |x| && x[..|p|] == p && x[|p|] == c
    {
      if |p| < |x| && x[..|p| + 1] == p + [c] {
        assert x[..|p|] == (p + [c])[..|p|];
        assert x[|p|] == (p + [c])[|p|];
      }
      if |p| < |x| && x[..|p|] == p && x[|p|] == c {
        assert x[..|p| + 1] == x[..|p|] + [x[|p|]];
      }
    }


    /** From the root with nothing built, `FindSimilar` finds exactly the
        stored words that the edit walk reaches from `word` within `maxDist`
        edits; in particular a stored `word` finds itself whenever
        `maxDist >= 0`, and a negative `maxDist` finds nothing. */
    lemma FindSimilarWords(word: string, maxDist: int)
      requires Valid()
      ensures forall x :: x in FindSimilar(word, maxDist, null, "") <==> x in Words() && Reachable(word, x, maxDist)
      ensures maxDist >= 0 && word in Words() ==> word in FindSimilar(word, maxDist, null, "")
      ensures maxDist < 0 ==> FindSimilar(word, maxDist, null, "") == []
    {
      assert FindSimilar(word, maxDist, null, "") == FindSimilar(word, maxDist, At[""], "");
      FindSimilarExact(word, maxDist, "");
      forall x: string ensures x[..0] == "" && x[0..] == x {
      }
      if maxDist >= 0 {
        ReachableSelf(word, maxDist);
      }
    }

    /** With no edits allowed, `FindSimilar` from the root returns the word
        itself, once, when it is stored, and nothing otherwise. */
    lemma FindSimilarExactMatch(word: string)
      requires Valid()
      ensures FindSimilar(word, 0, null, "") == if word in Words() then [word] else []
    {
      assert FindSimilar(word, 0, null, "") == FindSimilar(word, 0, At[""], "");
      MatchOnly(word, "");
      assert "" + word == word;
    }

    /** With no edits left, the walk from the node at `p` follows `s` down
        the trie and reports `p + s` once when it is stored. */
    lemma {:induction false} MatchOnly(s: string, p: string)
      requires Valid() && p in At
      ensures FindSimilar(s, 0, At[p], p) == if p + s in Words() then [p + s] else []
      decreases |s|
    {
      FindSimilarSteps(s, 0, p);
      NoneBelow(s, -1, At[p], p, 0, None);
      if s == [] {
        assert p + s == p;
        return;
      }
      ChildAt(p, s[0]);
      assert p + s == (p + [s[0]]) + s[1..];
      if s[0] as int in At[p].Children {
        MatchOnly(s[1..], p + [s[0]]);
      } else {
        assert Via(s[0], s[1..], 0, At[p], p) == [];
        if p + s in At {
          PathThrough(p, s);
        }
      }
    }

    /** A path through `p` continues with its next character. */
    lemma PathThrough(p: string, s: string)
      requires Valid() && s != [] && p + s in At
      ensures p + [s[0]] in At
    {
      PrefixClosed(p + s, |p| + 1);
      assert (p + s)[..|p| + 1] == p + [s[0]];
    }

    /** A negative budget finds nothing below any slot. */
    lemma {:induction false} NoneBelow(rest: string, d: int, n: TrieNode, built: string, i: nat, skip: Option<char>)
      requires Valid() && n in At.Values && n.Valid() && i <= |n.GetAllChildren()| && d < 0
      ensures EachChild(rest, d, n, built, i, skip) == []
      decreases |n.GetAllChildren()| - i
    {
      if i < |n.GetAllChildren()| {
        EachChildStep(rest, d, n, built, i, skip);
        NoneBelow(rest, d, n, built, i + 1, skip);
      }
    }
  }
}
