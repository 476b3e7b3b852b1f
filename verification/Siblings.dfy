/** The intrusive child list of `XMLNode`: five links per node, kept consistent by every operation. */
module Siblings {

  /** The element at a position of a list, or null in front of it and behind it. */
  ghost function At(kids: seq<XMLNode>, i: int): XMLNode? {
    if 0 <= i < |kids| then kids[i] else null
  }

  ghost predicate Distinct(kids: seq<XMLNode>) {
    forall i, j :: 0 <= i < j < |kids| ==> kids[i] != kids[j]
  }

  ghost function Inserted(kids: seq<XMLNode>, i: nat, x: XMLNode): seq<XMLNode>
    requires i <= |kids|
  {
    kids[..i] + [x] + kids[i..]
  }

  ghost function Removed(kids: seq<XMLNode>, i: nat): seq<XMLNode>
    requires i < |kids|
  {
    kids[..i] + kids[i + 1..]
  }

  lemma InsertedMembers(kids: seq<XMLNode>, i: nat, x: XMLNode)
    requires i <= |kids| && Distinct(kids) && x !in kids
    ensures |Inserted(kids, i, x)| == |kids| + 1 && Distinct(Inserted(kids, i, x))
    ensures Inserted(kids, i, x)[0] == if i == 0 then x else kids[0]
    ensures Inserted(kids, i, x)[|kids|] == if i == |kids| then x else kids[|kids| - 1]
    ensures forall y :: y in Inserted(kids, i, x) <==> y == x || y in kids
  {
    assert kids == kids[..i] + kids[i..];
  }

  lemma InsertedAt(kids: seq<XMLNode>, i: nat, x: XMLNode, k: int)
    requires i <= |kids|
    ensures At(Inserted(kids, i, x), k) == if k < i then At(kids, k) else if k == i then x else At(kids, k - 1)
  {
  }

  lemma RemovedMembers(kids: seq<XMLNode>, i: nat)
    requires i < |kids| && Distinct(kids)
    ensures |Removed(kids, i)| == |kids| - 1 && Distinct(Removed(kids, i)) && kids[i] !in Removed(kids, i)
    ensures forall y :: y in Removed(kids, i) ==> y in kids
  {
    assert kids == kids[..i] + [kids[i]] + kids[i + 1..];
  }

  lemma RemovedAt(kids: seq<XMLNode>, i: nat, k: int)
    requires i < |kids|
    ensures At(Removed(kids, i), k) == if k < i then At(kids, k) else At(kids, k + 1)
  {
  }

  /** Taking the first element of what is left moves it behind what is gone. */
  lemma RemovedFirst(all: seq<XMLNode>, n: nat)
    requires n < |all|
    ensures Removed(all[n..], 0) == all[n + 1..] && all[..n + 1] == all[..n] + [all[n]] && all[n..][0] == all[n]
  {
  }

  class XMLNode {
    var parent: XMLNode?
    var firstChild: XMLNode?
    var lastChild: XMLNode?
    var prev: XMLNode?
    var next: XMLNode?
    /** The children, first to last. */
    ghost var kids: seq<XMLNode>

    constructor ()
      ensures Valid() && kids == [] && parent == null && prev == null && next == null
    {
      parent, firstChild, lastChild, prev, next, kids := null, null, null, null, null, [];
    }

    ghost predicate PrevAt(i: nat)
      reads this, kids
    {
      i < |kids| && kids[i].parent == this && kids[i].prev == At(kids, i - 1)
    }

    ghost predicate NextAt(i: nat)
      reads this, kids
    {
      i < |kids| && kids[i].next == At(kids, i + 1)
    }

    /** The links of this node and of its children describe the sequence `kids` and nothing else. */
    ghost predicate Valid()
      reads this, kids
    {
      this !in kids && Distinct(kids) && firstChild == At(kids, 0) && lastChild == At(kids, |kids| - 1) &&
      (forall i: nat :: i < |kids| ==> PrevAt(i)) && forall i: nat :: i < |kids| ==> NextAt(i)
    }

    /** An empty list has neither a first nor a last child; no child is its own sibling. */
    lemma Ends()
      requires Valid()
      ensures kids == [] <==> firstChild == null
      ensures kids == [] <==> lastChild == null
      ensures kids != [] ==> firstChild == kids[0]
    {
    }

    /** A child links to its own position only. */
    lemma Position(i: nat)
      requires Valid() && i < |kids|
      ensures kids[i].parent == this && kids[i].prev == At(kids, i - 1) && kids[i].next == At(kids, i + 1)
      ensures (kids[i] == firstChild <==> i == 0) && (kids[i] == lastChild <==> i == |kids| - 1)
      ensures kids[i].next == null <==> i == |kids| - 1
      ensures kids[i].prev == null <==> i == 0
    {
      assert PrevAt(i) && NextAt(i);
    }

    method InsertEndChild(addThis: XMLNode) returns (r: XMLNode)
      requires Valid() && addThis !in kids && addThis != this
      modifies this`firstChild, this`lastChild, this`kids, kids`next, addThis`parent, addThis`prev, addThis`next
      ensures Valid() && kids == Inserted(old(kids), |old(kids)|, addThis) && r == addThis
    {
      hide Distinct, Inserted;
      ghost var n, was := |kids|, kids;
      InsertedMembers(was, n, addThis);
      Ends();
      if lastChild != null {
        Position(n - 1);
        lastChild.next := addThis;
        addThis.prev := lastChild;
        lastChild := addThis;
        addThis.next := null;
      } else {
        firstChild, lastChild := addThis, addThis;
        addThis.prev := null;
        addThis.next := null;
      }
      addThis.parent := this;
      kids := Inserted(was, n, addThis);
      forall k: nat | k < |kids| ensures PrevAt(k) {
        InsertedAt(was, n, addThis, k);
        InsertedAt(was, n, addThis, k - 1);
        if k < n { assert old(PrevAt(k)) && was[k] != addThis; }
      }
      forall k: nat | k < |kids| ensures NextAt(k) {
        InsertedAt(was, n, addThis, k);
        InsertedAt(was, n, addThis, k + 1);
        if k < n { assert old(NextAt(k)) && was[k] != addThis; }
        if k < n - 1 { DistinctAt(was, k, n - 1); }
      }
      r := addThis;
    }

    method InsertFirstChild(addThis: XMLNode) returns (r: XMLNode)
      requires Valid() && addThis !in kids && addThis != this
      modifies this`firstChild, this`lastChild, this`kids, kids`prev, addThis`parent, addThis`prev, addThis`next
      ensures Valid() && kids == Inserted(old(kids), 0, addThis) && r == addThis
    {
      hide Distinct, Inserted;
      ghost var n, was := |kids|, kids;
      InsertedMembers(was, 0, addThis);
      Ends();
      if firstChild != null {
        Position(0);
        firstChild.prev := addThis;
        addThis.next := firstChild;
        firstChild := addThis;
        addThis.prev := null;
      } else {
        firstChild, lastChild := addThis, addThis;
        addThis.prev := null;
        addThis.next := null;
      }
      addThis.parent := this;
      kids := Inserted(was, 0, addThis);
      forall k: nat | k < |kids| ensures PrevAt(k) {
        InsertedAt(was, 0, addThis, k);
        InsertedAt(was, 0, addThis, k - 1);
        if k > 0 { assert old(PrevAt(k - 1)) && was[k - 1] != addThis; }
        if k > 1 { DistinctAt(was, 0, k - 1); }
      }
      forall k: nat | k < |kids| ensures NextAt(k) {
        InsertedAt(was, 0, addThis, k);
        InsertedAt(was, 0, addThis, k + 1);
        if k > 0 { assert old(NextAt(k - 1)) && was[k - 1] != addThis; }
      }
      r := addThis;
    }

    /** Inserts behind a child; a node that is not a child gives null and changes nothing. */
    method InsertAfterChild(afterThis: XMLNode, addThis: XMLNode) returns (r: XMLNode?)
      requires Valid() && addThis !in kids && addThis != this && addThis != afterThis
      requires afterThis.parent == this <==> afterThis in kids
      modifies this`firstChild, this`lastChild, this`kids, kids`next, kids`prev
      modifies addThis`parent, addThis`prev, addThis`next
      ensures Valid()
      ensures afterThis !in old(kids) ==> r == null && kids == old(kids)
      ensures afterThis in old(kids) ==> r == addThis
      ensures forall i :: 0 <= i < |old(kids)| && old(kids)[i] == afterThis ==>
        kids == Inserted(old(kids), i + 1, addThis)
    {
      hide Distinct, PrevAt, NextAt;
      if afterThis.parent != this {
        return null;
      }
      ghost var i := IndexOf(kids, afterThis);
      Position(i);
      if afterThis.next == null {
        r := InsertEndChild(addThis);
        return;
      }
      Position(i + 1);
      InsertBetween(afterThis, afterThis.next, addThis, i);
      r := addThis;
    }

    /** The links of a node put between two children. */
    method InsertBetween(afterThis: XMLNode, before: XMLNode, addThis: XMLNode, ghost i: nat)
      requires Valid() && addThis !in kids && addThis != this
      requires i + 1 < |kids| && kids[i] == afterThis && kids[i + 1] == before
      modifies this`kids, afterThis`next, before`prev, addThis`parent, addThis`prev, addThis`next
      ensures Valid() && kids == Inserted(old(kids), i + 1, addThis)
    {
      hide Distinct, Inserted;
      ghost var was := kids;
      InsertedMembers(was, i + 1, addThis);
      Position(i);
      Position(i + 1);
      addThis.prev := afterThis;
      addThis.next := before;
      before.prev := addThis;
      afterThis.next := addThis;
      addThis.parent := this;
      kids := Inserted(was, i + 1, addThis);
      forall k: nat | k < |kids| ensures PrevAt(k) {
        InsertedAt(was, i + 1, addThis, k);
        InsertedAt(was, i + 1, addThis, k - 1);
        if k <= i {
          assert old(PrevAt(k)) && was[k] != addThis;
          DistinctAt(was, k, i + 1);
        } else if k > i + 1 {
          assert old(PrevAt(k - 1)) && was[k - 1] != addThis;
          DistinctAt(was, k - 1, i + 1);
        }
      }
      forall k: nat | k < |kids| ensures NextAt(k) {
        InsertedAt(was, i + 1, addThis, k);
        InsertedAt(was, i + 1, addThis, k + 1);
        if k <= i {
          assert old(NextAt(k)) && was[k] != addThis;
          DistinctAt(was, k, i);
        } else if k > i + 1 {
          assert old(NextAt(k - 1)) && was[k - 1] != addThis;
          DistinctAt(was, k - 1, i);
        }
      }
    }

    /** Takes a child out of the list. Its own links to its siblings stay as they were. */
    method Unlink(child: XMLNode)
      requires Valid() && child in kids
      modifies this`firstChild, this`lastChild, this`kids, kids`next, kids`prev, child`parent
      ensures Valid() && child !in kids && child.parent == null
      ensures forall i :: 0 <= i < |old(kids)| && old(kids)[i] == child ==> kids == Removed(old(kids), i)
      ensures child.prev == old(child.prev) && child.next == old(child.next)
    {
      hide Distinct, Removed;
      ghost var i := IndexOf(kids, child);
      ghost var was, n := kids, |kids|;
      RemovedMembers(was, i);
      Position(i);
      if child == firstChild {
        firstChild := firstChild.next;
      }
      if child == lastChild {
        lastChild := lastChild.prev;
      }
      if child.prev != null {
        DistinctAt(was, i - 1, i);
        child.prev.next := child.next;
      }
      if child.next != null {
        DistinctAt(was, i, i + 1);
        child.next.prev := child.prev;
      }
      child.parent := null;
      kids := Removed(was, i);
      RemovedAt(was, i, 0);
      RemovedAt(was, i, n - 2);
      forall k: nat | k < |kids| ensures PrevAt(k) {
        RemovedAt(was, i, k);
        RemovedAt(was, i, k - 1);
        var j := if k < i then k else k + 1;
        assert old(PrevAt(j));
        DistinctAt(was, j, i);
        if i + 1 < n { DistinctAt(was, j, i + 1); }
      }
      forall k: nat | k < |kids| ensures NextAt(k) {
        RemovedAt(was, i, k);
        RemovedAt(was, i, k + 1);
        var j := if k < i then k else k + 1;
        assert old(NextAt(j));
        DistinctAt(was, j, i);
        if 0 < i { DistinctAt(was, j, i - 1); }
      }
    }

    /** Unlinks the first child until there is none; `deleted` are the nodes in the order they went. */
    method DeleteChildren() returns (ghost deleted: seq<XMLNode>)
      requires Valid()
      modifies this, kids
      ensures Valid() && kids == [] && firstChild == lastChild == null && deleted == old(kids)
      ensures forall i :: 0 <= i < |old(kids)| ==> old(kids)[i].parent == null
    {
      hide Distinct, PrevAt, NextAt, Valid, Removed;
      deleted := [];
      ghost var all := kids;
      assert Distinct(all) by { DistinctKids(); }
      while firstChild != null
        invariant Valid() && |deleted| <= |all|
        invariant deleted == all[..|deleted|] && kids == all[|deleted|..]
        invariant forall i :: 0 <= i < |deleted| ==> all[i].parent == null
        decreases |kids|
      {
        Ends();
        var node := firstChild;
        ghost var n := |deleted|;
        forall i: nat | i < n ensures all[i] != all[n] { DistinctAt(all, i, n); }
        RemovedFirst(all, n);
        Unlink(node);
        deleted := deleted + [node];
        assert all[n].parent == null;
      }
      Ends();
    }

    lemma DistinctKids()
      requires Valid()
      ensures Distinct(kids)
    {
    }
  }

  lemma DistinctAt(kids: seq<XMLNode>, i: nat, j: nat)
    requires Distinct(kids) && i < |kids| && j < |kids|
    ensures kids[i] == kids[j] <==> i == j
  {
  }

  lemma IndexOf(kids: seq<XMLNode>, x: XMLNode) returns (i: nat)
    requires x in kids && Distinct(kids)
    ensures i < |kids| && kids[i] == x
    ensures forall j :: 0 <= j < |kids| && kids[j] == x ==> j == i
  {
    i :| i < |kids| && kids[i] == x;
  }

  /** Taking out what was put in gives the sequence back. */
  lemma InsertRemove(kids: seq<XMLNode>, i: nat, x: XMLNode)
    requires i <= |kids|
    ensures Removed(Inserted(kids, i, x), i) == kids
  {
    assert Inserted(kids, i, x)[..i] == kids[..i] && Inserted(kids, i, x)[i + 1..] == kids[i..];
  }

  /** The links of the parent and of every child are those of an earlier state. */
  twostate predicate SameLinks(node: XMLNode)
    reads node, node.kids
  {
    node.kids == old(node.kids) && node.firstChild == old(node.firstChild) && node.lastChild == old(node.lastChild) &&
    forall k :: 0 <= k < |node.kids| ==>
      node.kids[k].parent == old(node.kids[k].parent) &&
      node.kids[k].prev == old(node.kids[k].prev) && node.kids[k].next == old(node.kids[k].next)
  }

  /** The sequence of children determines every link. */
  twostate lemma LinksDetermined(node: XMLNode)
    requires old(node.Valid()) && node.Valid() && node.kids == old(node.kids)
    ensures SameLinks(node)
  {
    forall k: nat | k < |node.kids|
      ensures node.kids[k].parent == old(node.kids[k].parent)
      ensures node.kids[k].prev == old(node.kids[k].prev) && node.kids[k].next == old(node.kids[k].next)
    {
      assert old(node.PrevAt(k)) && old(node.NextAt(k));
      assert node.PrevAt(k) && node.NextAt(k);
    }
  }

  /** Unlinking a node undoes inserting it at the end: every link in the list is what it was. */
  method InsertEndAndUnlink(node: XMLNode, addThis: XMLNode)
    requires node.Valid() && addThis !in node.kids && addThis != node
    modifies node, node.kids, addThis
    ensures node.Valid() && SameLinks(node) && addThis.parent == null
  {
    hide XMLNode.Valid, Inserted, Removed;
    ghost var was := node.kids;
    node.DistinctKids();
    var r := node.InsertEndChild(addThis);
    InsertedMembers(was, |was|, addThis);
    InsertedHas(was, |was|, addThis);
    assert forall k :: 0 <= k < |node.kids| ==> node.kids[k] == addThis || node.kids[k] in was;
    node.Unlink(addThis);
    InsertRemove(was, |was|, addThis);
    LinksDetermined(node);
  }

  /** And so it does behind any child. */
  method InsertAfterAndUnlink(node: XMLNode, afterThis: XMLNode, addThis: XMLNode)
    requires node.Valid() && addThis !in node.kids && addThis != node && addThis != afterThis
    requires afterThis in node.kids
    modifies node, node.kids, addThis
    ensures node.Valid() && SameLinks(node) && addThis.parent == null
  {
    hide XMLNode.Valid, Inserted, Removed;
    ghost var was := node.kids;
    ghost var i: nat :| i < |was| && was[i] == afterThis;
    node.DistinctKids();
    node.Position(i);
    var r := node.InsertAfterChild(afterThis, addThis);
    InsertedMembers(was, i + 1, addThis);
    InsertedHas(was, i + 1, addThis);
    assert forall k :: 0 <= k < |node.kids| ==> node.kids[k] == addThis || node.kids[k] in was;
    node.Unlink(addThis);
    InsertRemove(was, i + 1, addThis);
    LinksDetermined(node);
  }

  lemma InsertedHas(kids: seq<XMLNode>, i: nat, x: XMLNode)
    requires i <= |kids|
    ensures i < |Inserted(kids, i, x)| && Inserted(kids, i, x)[i] == x && x in Inserted(kids, i, x)
  {
  }
}
