/** A node of the spelling corrector's trie. Children are kept in a sparse
    array that starts at the smallest child character present (`baseChar`):
    the child for character `c` sits in slot `c - baseChar`. The array grows
    at either end as children are added. */
module TrieNodes {

  /** The integers that are the code of some `char`. */
  predicate IsCharCode(x: int) {
    0 <= x < 0xD800 || 0xE000 <= x < 0x11_0000
  }

  class TrieNode {
    var baseChar: char
    var nodes: array?<TrieNode?>
    var isEntry: bool

    /** The abstract view of the child array: the child for each character,
        keyed by the character's code. */
    ghost var Children: map<int, TrieNode>

    /** The array holds exactly `Children`: slot `i` is filled exactly when
        there is a child for the character `baseChar + i`, and then holds
        that child. */
    ghost predicate Stores()
      reads this, nodes
    {
      && nodes != null
      && (forall k :: k in Children ==> IsCharCode(k) && 0 <= k - baseChar as int < nodes.Length)
      && (forall i {:trigger nodes[i]} :: 0 <= i < nodes.Length ==>
            && (nodes[i] != null <==> baseChar as int + i in Children)
            && (nodes[i] != null ==> Children[baseChar as int + i] == nodes[i]))
    }

    /** No array means no children; otherwise the array stores `Children`
        and `baseChar` is the smallest child character present. */
    ghost predicate Valid()
      reads this, nodes
    {
      && (nodes == null ==> Children == map[])
      && (nodes != null ==> baseChar as int in Children && Stores())
    }

    constructor ()
      ensures Valid() && Children == map[] && !isEntry && nodes == null
    {
      nodes := null;
      isEntry := false;
      Children := map[];
    }

    /** The smallest child character present (meaningful once a child exists). */
    function BaseChar(): (b: char)
      reads this, nodes
      requires Valid()
      ensures Children != map[] ==> b as int in Children && forall k :: k in Children ==> b as int <= k
    {
      baseChar
    }

    function GetChild(c: char): (child: TrieNode?)
      reads this, nodes
      requires Valid()
      ensures child != null <==> c as int in Children
      ensures child != null ==> child == Children[c as int]
      ensures nodes == null || nodes.Length == 0 ==> child == null
      ensures nodes != null && (c < baseChar || c as int - baseChar as int >= nodes.Length) ==> child == null
    {
      if nodes == null || nodes.Length == 0 then null
      else
        var index := c as int - baseChar as int;
        if index < 0 || index >= nodes.Length then null
        else nodes[index]
    }

    predicate Contains(c: char)
      reads this, nodes
      requires Valid()
      ensures Contains(c) <==> c as int in Children
    {
      GetChild(c) != null
    }

    /** The child slots in array order; empty while there is no array. Slot
        `i` holds the child for the character `BaseChar() + i`, if any. */
    function GetAllChildren(): (slots: seq<TrieNode?>)
      reads this, nodes
      requires Valid()
      ensures nodes == null ==> slots == []
      ensures nodes != null ==> |slots| == nodes.Length
      ensures forall i {:trigger slots[i]} :: 0 <= i < |slots| && slots[i] != null ==>
                baseChar as int + i in Children && Children[baseChar as int + i] == slots[i]
    {
      if nodes == null then [] else nodes[..]
    }

    /** Slot `i` is filled exactly when the character `baseChar + i` has a
        child, and then holds that child. */
    lemma SlotFilled(i: int)
      requires Valid() && 0 <= i < |GetAllChildren()|
      ensures GetAllChildren()[i] != null <==> baseChar as int + i in Children
      ensures GetAllChildren()[i] != null ==> Children[baseChar as int + i] == GetAllChildren()[i]
    {
      assert Stores();
    }

    /** The child for character code `k` sits in slot `k - baseChar`. */
    lemma ChildSlot(k: int)
      requires Valid() && k in Children
      ensures IsCharCode(k) && 0 <= k - baseChar as int < |GetAllChildren()|
      ensures GetAllChildren()[k - baseChar as int] == Children[k]
    {
      assert Stores();
    }

    /** Returns the child for `c`, creating it if it is missing. An existing
        child is never replaced, and every other child stays where `GetChild`
        finds it. */
    method AddChild(c: char) returns (child: TrieNode)
      requires Valid()
      modifies this, nodes
      ensures Valid()
      ensures c as int in Children && child == Children[c as int]
      ensures c as int in old(Children) ==> Children == old(Children)
      ensures c as int !in old(Children) ==>
                && Children == old(Children)[c as int := child]
                && fresh(child) && child.Valid() && child.Children == map[] && !child.isEntry && child.nodes == null
      ensures isEntry == old(isEntry)
      ensures nodes != null && (nodes == old(nodes) || fresh(nodes))
    {
      Reserve(c);
      var index := c as int - baseChar as int;
      if nodes[index] == null {
        var created := new TrieNode();
        nodes[index] := created;
        Children := Children[c as int := created];
      }
      child := nodes[index];
    }

    /** The first part of `AddChild`: makes the array cover `c`. The first
        child gets a one-slot array; a character below `baseChar` moves the
        start down to it; one past the end grows the array upwards. Every
        child keeps its character. */
    method Reserve(c: char)
      requires Valid()
      modifies this, nodes
      ensures Stores() && 0 <= c as int - baseChar as int < nodes.Length
      ensures baseChar == c || baseChar as int in Children
      ensures Children == old(Children) && isEntry == old(isEntry)
      ensures nodes == old(nodes) || fresh(nodes)
    {
      if nodes == null {
        nodes := new TrieNode?[1](_ => null);
        baseChar := c;
      } else if c < baseChar {
        GrowLow(c);
      } else if c as int - baseChar as int >= nodes.Length {
        GrowHigh(c);
      }
    }

    /** Moves the array's start down to `c`, shifting every slot up by
        `baseChar - c`. */
    method GrowLow(c: char)
      requires Valid() && nodes != null && c < baseChar
      modifies this
      ensures Stores() && baseChar == c && nodes.Length > 0 && fresh(nodes)
      ensures Children == old(Children) && isEntry == old(isEntry)
    {
      var shift := baseChar as int - c as int;
      var temp := new TrieNode?[shift + nodes.Length](_ => null);
      CopyTo(nodes, temp, shift);
      nodes := temp;
      baseChar := c;
    }

    /** Grows the array upwards so that its last slot is `c`'s. */
    method GrowHigh(c: char)
      requires Valid() && nodes != null && c as int - baseChar as int >= nodes.Length
      modifies this
      ensures Stores() && baseChar == old(baseChar) && c as int - baseChar as int == nodes.Length - 1 && fresh(nodes)
      ensures Children == old(Children) && isEntry == old(isEntry)
    {
      var temp := new TrieNode?[c as int - baseChar as int + 1](_ => null);
      CopyTo(nodes, temp, 0);
      nodes := temp;
    }
  }

  /** Copies `src` into `dst` starting at slot `offset`; the other slots of
      `dst` keep their values. */
  method CopyTo<T>(src: array<T>, dst: array<T>, offset: nat)
    requires src != dst && offset + src.Length <= dst.Length
    modifies dst
    ensures forall j :: offset <= j < offset + src.Length ==> dst[j] == src[j - offset]
    ensures forall j :: 0 <= j < dst.Length && !(offset <= j < offset + src.Length) ==> dst[j] == old(dst[j])
  {
    var i := 0;
    while i < src.Length
      invariant 0 <= i <= src.Length
      invariant forall j :: offset <= j < offset + i ==> dst[j] == src[j - offset]
      invariant forall j :: 0 <= j < dst.Length && !(offset <= j < offset + i) ==> dst[j] == old(dst[j])
    {
      dst[offset + i] := src[i];
      i := i + 1;
    }
  }
}
