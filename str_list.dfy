// The append-only singly-linked string list of main.c (struct str_list and
// struct str_node) and the exact-match exclusion test `check` that scans it.

module StrLists {

  /** One cell of the chain: a copied string and the link to the next cell. */
  class StrNode {
    var str: string
    var next: StrNode?

    constructor (s: string)
      ensures str == s && next == null
    {
      str := s;
      next := null;
    }
  }

  /**
   * The list header: element count, first and last cell.
   * Nodes is the chain of cells in order, Contents the strings they hold.
   */
  class StrList {
    var size: int
    var head: StrNode?
    var tail: StrNode?
    ghost var Contents: seq<string>
    ghost var Nodes: seq<StrNode>
    ghost var Repr: set<object>

    ghost predicate Valid()
      reads this, Repr
      ensures Valid() ==> size == |Contents| >= 0
      ensures Valid() ==> (head == null <==> size == 0) && (tail == null <==> size == 0)
    {
      this in Repr &&
      size == |Contents| == |Nodes| &&
      (forall i :: 0 <= i < |Nodes| ==> Nodes[i] in Repr) &&
      (size == 0 ==> head == null && tail == null) &&
      (size > 0 ==> head == Nodes[0] && tail == Nodes[size - 1] && tail.next == null) &&
      (forall i :: 0 <= i < |Nodes| - 1 ==> Nodes[i].next == Nodes[i + 1]) &&
      (forall i :: 0 <= i < |Nodes| ==> Nodes[i].str == Contents[i])
    }

    /** str_list_create: size 0, no head, no tail. */
    constructor ()
      ensures Valid() && fresh(Repr)
      ensures Contents == [] && size == 0 && head == null && tail == null
    {
      size := 0;
      head := null;
      tail := null;
      Contents := [];
      Nodes := [];
      Repr := {this};
    }

    /** str_list_append: one new cell holding p, linked after the old tail. */
    method Append(p: string)
      requires Valid()
      modifies Repr
      ensures Valid() && fresh(Repr - old(Repr))
      ensures Contents == old(Contents) + [p]
      ensures size == old(size) + 1 && tail != null && tail.str == p
      ensures old(size) == 0 ==> head == tail
      ensures old(size) > 0 ==> head == old(head)
    {
      var snode := new StrNode(p);
      size := size + 1;
      if tail == null {
        head := snode;
        tail := snode;
      } else {
        tail.next := snode;
        tail := snode;
      }
      Contents := Contents + [p];
      Nodes := Nodes + [snode];
      Repr := Repr + {snode};
    }
  }

  /** Whether path is excluded: exact string equality with some element. */
  predicate IsExcluded(path: string, excludes: seq<string>)
  {
    path in excludes
  }

  /**
   * check: walks the chain from head and answers 1 (excluded) as soon as a cell
   * holds exactly path, 0 (valid) when the chain ends.
   */
  method Check(path: string, excludes: StrList) returns (r: int)
    requires excludes.Valid()
    ensures r == 0 || r == 1
    ensures r == 1 <==> IsExcluded(path, excludes.Contents)
  {
    var exclude := excludes.head;
    ghost var i := 0;
    while exclude != null
      invariant 0 <= i <= |excludes.Nodes|
      invariant exclude == if i < |excludes.Nodes| then excludes.Nodes[i] else null
      invariant forall k :: 0 <= k < i ==> excludes.Contents[k] != path
      decreases |excludes.Nodes| - i
    {
      if path == exclude.str {
        return 1;
      }
      exclude := exclude.next;
      i := i + 1;
    }
    return 0;
  }
}
