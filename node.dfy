/** One position of the prefix tree (Node.java): 26 child slots, one per
    letter, and the number of times the word ending here was added. */
module Nodes {

  class Node {
    /** The child slots, handed out by reference: `Trie.Add` writes new
        children into this very array. */
    const children: array<Node?>
    /** 0: no word ends here; n > 0: the word ending here was added n times. */
    var count: nat

    constructor ()
      ensures count == 0
      ensures children.Length == 26 && fresh(children)
      ensures forall i | 0 <= i < children.Length :: children[i] == null
    {
      children := new Node?[26](_ => null);
      count := 0;
    }

    /** The number of times the word ending here was added. */
    function GetValue(): (r: nat)
      reads this
      ensures r == count
    {
      count
    }

    /** Adds one occurrence; the only operation on `count`, which therefore
        never decreases. */
    method IncrementValue()
      modifies this
      ensures count == old(count) + 1
    {
      count := count + 1;
    }

    /** The node's own child array, not a copy. */
    function GetChildren(): (r: array<Node?>)
      ensures r == children
    {
      children
    }
  }
}
