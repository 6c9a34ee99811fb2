/**
 * Binary search tree with insert, search and in-order traversal
 * (10_DataStructures/04_BinaryTree/BinaryTreeImplementation.cpp).
 *
 * The tree of `unique_ptr<TNode>` is a datatype value: `insertRec` rebuilds the path it
 * walks, `searchRec` and `inorderRec` are structural recursions, and the printed in-order
 * traversal is returned as a sequence.
 */
module BinaryTree {

  datatype Tree = Nil | Node(left: Tree, key: int, right: Tree)

  /** The set of keys stored in a tree. */
  function Keys(t: Tree): set<int>
  {
    match t
    case Nil => {}
    case Node(l, k, r) => Keys(l) + {k} + Keys(r)
  }

  /** BST ordering: every key on the left of a node is smaller, every key on the right larger. */
  ghost predicate IsBST(t: Tree)
  {
    match t
    case Nil => true
    case Node(l, k, r) =>
      IsBST(l) && IsBST(r) &&
      (forall x :: x in Keys(l) ==> x < k) &&
      (forall x :: x in Keys(r) ==> k < x)
  }

  /**
   * `insertRec(node, k)`: a new leaf where the search for `k` falls off the tree; a key
   * equal to a node's key takes neither branch, so the tree is left as it is.
   */
  function InsertRec(t: Tree, k: int): (r: Tree)
    ensures Keys(r) == Keys(t) + {k}
    ensures IsBST(t) ==> IsBST(r)
    ensures IsBST(t) && k in Keys(t) ==> r == t
  {
    match t
    case Nil => Node(Nil, k, Nil)
    case Node(l, key, rt) =>
      if k < key then Node(InsertRec(l, k), key, rt)
      else if k > key then Node(l, key, InsertRec(rt, k))
      else t
  }

  /** `searchRec(node, k)`: on a search tree, true exactly when `k` is a stored key. */
  function SearchRec(t: Tree, k: int): (b: bool)
    ensures b ==> k in Keys(t)
    ensures IsBST(t) ==> (b <==> k in Keys(t))
  {
    match t
    case Nil => false
    case Node(l, key, r) =>
      if key == k then true
      else if k < key then SearchRec(l, k)
      else SearchRec(r, k)
  }

  /**
   * `inorderRec(node)`: left subtree, node key, right subtree. The traversal lists exactly
   * the stored keys; on a search tree it is strictly increasing with one entry per key, so
   * it is the sorted key set.
   */
  function InorderRec(t: Tree): (s: seq<int>)
    ensures forall x :: x in s <==> x in Keys(t)
    ensures IsBST(t) ==> StrictlyIncreasing(s) && |s| == |Keys(t)|
  {
    match t
    case Nil => []
    case Node(l, k, r) =>
      var sl, sr := InorderRec(l), InorderRec(r);
      assert IsBST(t) ==> StrictlyIncreasing(sl + [k] + sr) && |sl + [k] + sr| == |Keys(t)| by {
        if IsBST(t) {
          JoinSorted(sl, k, sr);
          SplitKeys(l, k, r);
        }
      }
      sl + [k] + sr
  }

  ghost predicate StrictlyIncreasing(s: seq<int>)
  {
    forall i, j :: 0 <= i < j < |s| ==> s[i] < s[j]
  }

  /** The keys of a search-tree node split into the left keys, its own key and the right keys. */
  lemma SplitKeys(l: Tree, k: int, r: Tree)
    requires IsBST(Node(l, k, r))
    ensures |Keys(Node(l, k, r))| == |Keys(l)| + 1 + |Keys(r)|
  {
    assert Keys(l) !! Keys(r) && k !in Keys(l) && k !in Keys(r) by {
      forall x | x in Keys(l) ensures x !in Keys(r) && x < k { }
    }
    DisjointCard(Keys(l), k, Keys(r));
  }

  /** Disjoint parts around one more element add up. */
  lemma DisjointCard(a: set<int>, k: int, b: set<int>)
    requires a !! b && k !in a && k !in b
    ensures |a + {k} + b| == |a| + 1 + |b|
  {
    assert (a + {k}) !! b;
  }

  /** Two increasing runs with a key strictly between them make one increasing run. */
  lemma JoinSorted(sl: seq<int>, k: int, sr: seq<int>)
    requires StrictlyIncreasing(sl) && StrictlyIncreasing(sr)
    requires forall x :: x in sl ==> x < k
    requires forall x :: x in sr ==> k < x
    ensures StrictlyIncreasing(sl + [k] + sr)
  {
    var s := sl + [k] + sr;
    forall i, j | 0 <= i < j < |s| ensures s[i] < s[j] {
      if j < |sl| {
        assert s[i] == sl[i] && s[j] == sl[j];
      } else if j == |sl| {
        assert s[i] == sl[i] && sl[i] in sl;
      } else if i > |sl| {
        assert s[i] == sr[i - |sl| - 1] && s[j] == sr[j - |sl| - 1];
      } else {
        assert s[j] == sr[j - |sl| - 1] && sr[j - |sl| - 1] in sr;
        if i < |sl| {
          assert s[i] == sl[i] && sl[i] in sl;
        }
      }
    }
  }

  /** After inserting `k` into a search tree, searching finds it. */
  lemma InsertThenContains(t: Tree, k: int)
    requires IsBST(t)
    ensures SearchRec(InsertRec(t, k), k)
  {
  }

  /** Insertion leaves every other key's membership unchanged. */
  lemma InsertOthersUnchanged(t: Tree, k: int, x: int)
    requires IsBST(t) && x != k
    ensures SearchRec(InsertRec(t, k), x) == SearchRec(t, x)
  {
  }

  /** The `BST` object: the `root` that `insert` updates in place. */
  class BST {
    var root: Tree

    ghost predicate Valid()
      reads this
    {
      IsBST(root)
    }

    constructor ()
      ensures Valid() && root == Nil
    {
      root := Nil;
    }

    /** `insert(k)`: adds `k` to the key set, keeping the search-tree ordering. */
    method Insert(k: int)
      requires Valid()
      modifies this
      ensures Valid() && root == InsertRec(old(root), k)
      ensures Keys(root) == Keys(old(root)) + {k}
      ensures k in Keys(old(root)) ==> root == old(root)
    {
      root := InsertRec(root, k);
    }

    /** `contains(k)`: whether `k` is a stored key. */
    function Contains(k: int): (b: bool)
      reads this
      requires Valid()
      ensures b <==> k in Keys(root)
    {
      SearchRec(root, k)
    }

    /** `inorder()`: the stored keys in strictly increasing order. */
    function Inorder(): (s: seq<int>)
      reads this
      requires Valid()
      ensures StrictlyIncreasing(s) && |s| == |Keys(root)|
      ensures forall x :: x in s <==> x in Keys(root)
    {
      InorderRec(root)
    }
  }

  lemma ExampleTree()
    ensures var t := Node(Node(Node(Nil, 2, Nil), 3, Node(Nil, 4, Nil)), 5, Node(Node(Nil, 6, Nil), 7, Node(Nil, 8, Nil)));
      InorderRec(t) == [2, 3, 4, 5, 6, 7, 8] && SearchRec(t, 4) && !SearchRec(t, 10)
  {
    PerfectInorder(2, 3, 4, 5, 6, 7, 8);
  }

  /** The traversal of a full tree of depth three lists its seven keys left to right. */
  lemma PerfectInorder(a: int, b: int, c: int, d: int, e: int, f: int, g: int)
    ensures InorderRec(Node(Node(Node(Nil, a, Nil), b, Node(Nil, c, Nil)), d, Node(Node(Nil, e, Nil), f, Node(Nil, g, Nil))))
      == [a, b, c, d, e, f, g]
  {
    var left, right := Node(Node(Nil, a, Nil), b, Node(Nil, c, Nil)), Node(Node(Nil, e, Nil), f, Node(Nil, g, Nil));
    assert InorderRec(left) == [a, b, c];
    assert InorderRec(right) == [e, f, g];
  }

  /** `main`: inserting 5 3 7 2 4 6 8 gives the traversal 2 3 4 5 6 7 8; 4 is stored, 10 is not. */
  method Example() returns (inorder: seq<int>, has4: bool, has10: bool)
    ensures inorder == [2, 3, 4, 5, 6, 7, 8] && has4 && !has10
  {
    var tree := new BST();
    var leaf2, leaf4, leaf6, leaf8 := Node(Nil, 2, Nil), Node(Nil, 4, Nil), Node(Nil, 6, Nil), Node(Nil, 8, Nil);
    tree.Insert(5);
    assert tree.root == Node(Nil, 5, Nil);
    tree.Insert(3);
    assert tree.root == Node(Node(Nil, 3, Nil), 5, Nil);
    tree.Insert(7);
    assert tree.root == Node(Node(Nil, 3, Nil), 5, Node(Nil, 7, Nil));
    tree.Insert(2);
    assert tree.root == Node(Node(leaf2, 3, Nil), 5, Node(Nil, 7, Nil));
    tree.Insert(4);
    assert tree.root == Node(Node(leaf2, 3, leaf4), 5, Node(Nil, 7, Nil));
    tree.Insert(6);
    assert tree.root == Node(Node(leaf2, 3, leaf4), 5, Node(leaf6, 7, Nil));
    tree.Insert(8);
    assert tree.root == Node(Node(leaf2, 3, leaf4), 5, Node(leaf6, 7, leaf8));
    ExampleTree();
    inorder := tree.Inorder();
    has4 := tree.Contains(4);
    has10 := tree.Contains(10);
  }
}
