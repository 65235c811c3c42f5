/** The children of a JSON item: a doubly linked list whose head's `prev` is the tail. */
module ChildList {

  class Node {
    var next: Node?
    var prev: Node?
    var child: Node?

    /** `cJSON_New_Item`: all links empty. */
    constructor ()
      ensures next == null && prev == null && child == null
    {
      next, prev, child := null, null, null;
    }
  }

  ghost predicate Different(nodes: seq<Node>) {
    forall i, j :: 0 <= i < j < |nodes| ==> nodes[i] != nodes[j]
  }

  /** `nodes` are chained by `next` up to a null, and by `prev` back to the first. */
  ghost predicate Chained(nodes: seq<Node>)
    reads nodes
  {
    && (forall i :: 0 <= i < |nodes| - 1 ==> nodes[i].next == nodes[i + 1])
    && (forall i :: 0 <= i < |nodes| - 1 ==> nodes[i + 1].prev == nodes[i])
    && (nodes != [] ==> nodes[|nodes| - 1].next == null)
  }

  /** The children of `parent` are `nodes`, in order. */
  ghost predicate IsChildList(parent: Node, nodes: seq<Node>)
    reads parent, nodes
  {
    && parent !in nodes && Different(nodes) && Chained(nodes)
    && parent.child == (if nodes == [] then null else nodes[0])
    && (nodes != [] ==> nodes[0].prev == nodes[|nodes| - 1])
  }

  function WithoutAt<T>(s: seq<T>, k: nat): seq<T>
    requires k < |s|
  {
    s[..k] + s[k + 1..]
  }

  function WithAt<T>(s: seq<T>, k: nat, x: T): seq<T>
    requires k <= |s|
  {
    s[..k] + [x] + s[k..]
  }

  /** The list of a parent is determined by its links. */
  lemma {:induction false} ListIsUnique(parent: Node, nodes: seq<Node>, others: seq<Node>, i: nat)
    requires IsChildList(parent, nodes) && IsChildList(parent, others)
    requires i <= |nodes| && i <= |others| && (i < |nodes| && i < |others| ==> nodes[i] == others[i])
    requires (i == |nodes| <==> i == |others|)
    ensures |nodes| == |others| && nodes[i..] == others[i..]
    decreases |nodes| - i
  {
    if i < |nodes| {
      assert nodes[i].next == others[i].next;
      ListIsUnique(parent, nodes, others, i + 1);
      assert nodes[i..] == [nodes[i]] + nodes[i + 1..] && others[i..] == [others[i]] + others[i + 1..];
    }
  }

  /** `get_array_item`: the child number `index`, or null. */
  method GetItem(parent: Node?, index: nat, ghost nodes: seq<Node>) returns (r: Node?)
    requires if parent == null then nodes == [] else IsChildList(parent, nodes)
    ensures r == if index < |nodes| then nodes[index] else null
  {
    if parent == null {
      return null;
    }
    r := parent.child;
    var left: nat := index;
    ghost var i := 0;
    while r != null && left > 0
      invariant i <= |nodes| && left + i == index
      invariant if i < |nodes| then r == nodes[i] else r == null
    {
      left := left - 1;
      r := r.next;
      i := i + 1;
    }
  }

  /** The links of child number `k`. */
  lemma Links(parent: Node, nodes: seq<Node>, k: nat)
    requires IsChildList(parent, nodes) && k < |nodes|
    ensures if k + 1 < |nodes| then nodes[k].next == nodes[k + 1] && nodes[k + 1].prev == nodes[k]
            else nodes[k].next == null
    ensures if k > 0 then nodes[k].prev == nodes[k - 1] && nodes[k - 1].next == nodes[k]
            else nodes[k].prev == nodes[|nodes| - 1]
    ensures nodes[k] == parent.child <==> k == 0
  {
    if k > 0 { assert nodes[k - 1].next == nodes[(k - 1) + 1]; }
  }

  /** No child list of any node but `parent` was touched. */
  twostate predicate ChildrenKept(nodes: seq<Node>)
    reads nodes
  {
    forall n :: n in nodes ==> n.child == old(n.child)
  }

  /** The links after an append to a non-empty list. */
  lemma Appended(parent: Node, nodes: seq<Node>, item: Node)
    requires parent !in nodes && parent != item && item !in nodes && nodes != [] && Different(nodes)
    requires forall i :: 0 <= i < |nodes| - 1 ==> nodes[i].next == nodes[i + 1]
    requires forall i :: 0 <= i < |nodes| - 1 ==> nodes[i + 1].prev == nodes[i]
    requires nodes[|nodes| - 1].next == item && item.prev == nodes[|nodes| - 1]
    requires nodes[0].prev == item && parent.child == nodes[0]
    ensures IsChildList(parent, nodes + [item]) <==> item.next == null
  {
    var all := nodes + [item];
    assert all[|all| - 1] == item && all[0] == nodes[0];
  }

  /**
   * `add_item_to_array`: appends, except where an argument is missing or an item is added to itself.
   * The item's own `next` is only cleared in an empty list; elsewhere it has to be empty already, and an
   * item that is in the list spoils it.
   */
  method Append(parent: Node?, item: Node?, ghost nodes: seq<Node>) returns (ok: bool)
    requires if parent == null then nodes == [] else IsChildList(parent, nodes)
    modifies parent, item, nodes
    ensures ok <==> item != null && parent != null && parent != item
    ensures ok ==> (IsChildList(parent, nodes + [item]) <==> item !in nodes && (nodes == [] || old(item.next) == null))
    ensures !ok && parent != null ==> IsChildList(parent, nodes)
    ensures parent != null ==> parent.next == old(parent.next) && parent.prev == old(parent.prev)
    ensures ChildrenKept(nodes)
  {
    if item == null || parent == null || parent == item {
      return false;
    }
    if item in nodes { NotDifferent(nodes, item, |nodes|); }
    var child := parent.child;
    if child == null {
      parent.child := item;
      item.prev := item;
      item.next := null;
    } else {
      assert child == nodes[0] && child.prev == nodes[|nodes| - 1];
      child.prev.next := item;
      item.prev := child.prev;
      parent.child.prev := item;
      if item !in nodes { Appended(parent, nodes, item); }
    }
    return true;
  }

  /** A node put in a second time repeats. */
  lemma NotDifferent(nodes: seq<Node>, item: Node, k: nat)
    requires item in nodes && k <= |nodes|
    ensures !Different(WithAt(nodes, k, item)) && !Different(nodes + [item])
  {
    var i :| 0 <= i < |nodes| && nodes[i] == item;
    WithAtIndex(nodes, k, item, k);
    WithAtIndex(nodes, k, item, if i < k then i else i + 1);
    assert WithAt(nodes, k, item)[if i < k then i else i + 1] == item == WithAt(nodes, k, item)[k];
    assert (nodes + [item])[i] == (nodes + [item])[|nodes|];
  }

  /** `cJSON_DetachItemViaPointer`: takes child number `k` out; it then points nowhere. */
  method Detach(parent: Node, item: Node, ghost nodes: seq<Node>, ghost k: nat)
    requires IsChildList(parent, nodes) && k < |nodes| && nodes[k] == item
    modifies parent`child, nodes
    ensures IsChildList(parent, WithoutAt(nodes, k)) && item.next == null && item.prev == null
    ensures ChildrenKept(nodes)
  {
    Links(parent, nodes, k);
    if item != parent.child {
      item.prev.next := item.next;
    }
    if item.next != null {
      item.next.prev := item.prev;
    }
    if item == parent.child {
      parent.child := item.next;
    } else if item.next == null {
      parent.child.prev := item.prev;
    }
    item.prev := null;
    item.next := null;
    ghost var rest := WithoutAt(nodes, k);
    forall i | 0 <= i < |rest| ensures rest[i] == nodes[if i < k then i else i + 1] {}
    if rest != [] { assert rest[0] == nodes[if k == 0 then 1 else 0]; }
  }

  lemma WithAtIndex<T>(s: seq<T>, k: nat, x: T, i: nat)
    requires k <= |s| && i <= |s|
    ensures WithAt(s, k, x)[i] == if i < k then s[i] else if i == k then x else s[i - 1]
  {
  }

  /** The links once `item` stands before child number `k`. */
  lemma Inserted(parent: Node, nodes: seq<Node>, k: nat, item: Node)
    requires k < |nodes| && parent !in nodes && parent != item && item !in nodes && Different(nodes)
    requires forall i :: 0 <= i < |nodes| - 1 && i + 1 != k ==> nodes[i].next == nodes[i + 1]
    requires forall i :: 0 <= i < |nodes| - 1 && i + 1 != k ==> nodes[i + 1].prev == nodes[i]
    requires nodes[|nodes| - 1].next == null && item.next == nodes[k] && nodes[k].prev == item
    requires if k > 0 then nodes[k - 1].next == item && item.prev == nodes[k - 1] && nodes[0].prev == nodes[|nodes| - 1]
                           && parent.child == nodes[0]
             else item.prev == nodes[|nodes| - 1] && parent.child == item
    ensures IsChildList(parent, WithAt(nodes, k, item))
  {
    var all := WithAt(nodes, k, item);
    forall i | 0 <= i < |all| ensures all[i] == if i < k then nodes[i] else if i == k then item else nodes[i - 1] {
      WithAtIndex(nodes, k, item, i);
    }
    forall i | 0 <= i < |all| - 1 ensures all[i].next == all[i + 1] && all[i + 1].prev == all[i] {
      if i > k { assert nodes[i - 1].next == nodes[(i - 1) + 1]; }
    }
  }

  /** Links `item` in before child number `k`; an item that is the parent or in the list spoils it. */
  method InsertBefore(parent: Node, after: Node, item: Node, ghost nodes: seq<Node>, ghost k: nat)
    requires IsChildList(parent, nodes) && k < |nodes| && nodes[k] == after
    modifies parent`child, item, nodes
    ensures IsChildList(parent, WithAt(nodes, k, item)) <==> item != parent && item !in nodes
    ensures item != parent ==> ChildrenKept(nodes)
  {
    Links(parent, nodes, k);
    if item in nodes { NotDifferent(nodes, item, k); }
    WithAtIndex(nodes, k, item, k);
    assert item in WithAt(nodes, k, item);
    item.next := after;
    item.prev := after.prev;
    after.prev := item;
    if after == parent.child {
      parent.child := item;
    } else {
      item.prev.next := item;
    }
    if item != parent && item !in nodes { Inserted(parent, nodes, k, item); }
  }

  /** `cJSON_InsertItemInArray`: before child number `which`, or at the end if there is no such child. */
  method Insert(parent: Node?, which: int, item: Node?, ghost nodes: seq<Node>) returns (ok: bool)
    requires if parent == null then nodes == [] else IsChildList(parent, nodes)
    modifies parent, item, nodes
    ensures ok <==> which >= 0 && item != null && parent != null && (which < |nodes| || item != parent)
    ensures ok && which < |nodes| ==>
              (IsChildList(parent, WithAt(nodes, which, item)) <==> item != parent && item !in nodes)
    ensures ok && which >= |nodes| ==>
              (IsChildList(parent, nodes + [item]) <==> item !in nodes && (nodes == [] || old(item.next) == null))
    ensures !ok && parent != null ==> IsChildList(parent, nodes)
    ensures parent != null && item != parent ==> parent.next == old(parent.next) && parent.prev == old(parent.prev)
    ensures item != parent ==> ChildrenKept(nodes)
  {
    if which < 0 || item == null {
      return false;
    }
    var after := GetItem(parent, which, nodes);
    if after == null {
      ok := Append(parent, item, nodes);
      return;
    }
    Links(parent, nodes, which);
    if after != parent.child && after.prev == null {
      return false;
    }
    InsertBefore(parent, after, item, nodes, which);
    return true;
  }

  /** The links once `r` stands in the place of child number `k`. */
  lemma Replaced(parent: Node, nodes: seq<Node>, k: nat, r: Node)
    requires k < |nodes| && parent !in nodes && parent != r && r !in nodes && Different(nodes)
    requires forall i :: 0 <= i < |nodes| - 1 && i != k && i + 1 != k ==> nodes[i].next == nodes[i + 1]
    requires forall i :: 0 <= i < |nodes| - 1 && i != k && i + 1 != k ==> nodes[i + 1].prev == nodes[i]
    requires if k + 1 < |nodes| then r.next == nodes[k + 1] && nodes[k + 1].prev == r && nodes[|nodes| - 1].next == null
             else r.next == null
    requires k > 0 ==> nodes[k - 1].next == r && r.prev == nodes[k - 1] && parent.child == nodes[0]
    requires k > 0 ==> nodes[0].prev == if k + 1 < |nodes| then nodes[|nodes| - 1] else r
    requires k == 0 ==> parent.child == r && r.prev == if |nodes| > 1 then nodes[|nodes| - 1] else r
    ensures IsChildList(parent, nodes[k := r])
  {
    var all := nodes[k := r];
    forall i | 0 <= i < |all| - 1 ensures all[i].next == all[i + 1] && all[i + 1].prev == all[i] {
      if i != k && i + 1 != k { assert nodes[i].next == nodes[i + 1]; }
    }
  }

  /** A child put in the place of another stands twice. */
  lemma StandsTwice(nodes: seq<Node>, k: nat, r: Node)
    requires k < |nodes| && r in nodes && nodes[k] != r
    ensures !Different(nodes[k := r])
  {
    var i :| 0 <= i < |nodes| && nodes[i] == r;
    assert nodes[k := r][i] == nodes[k := r][k];
  }

  /** The replacement takes over the links of child number `k`. */
  method TakePlace(parent: Node, item: Node, replacement: Node, ghost nodes: seq<Node>, ghost k: nat)
    requires IsChildList(parent, nodes) && k < |nodes| && nodes[k] == item && replacement != item
    modifies parent`child, replacement, nodes
    ensures replacement != parent && replacement !in nodes ==> IsChildList(parent, nodes[k := replacement])
    ensures replacement != parent ==> ChildrenKept(nodes)
  {
    Links(parent, nodes, k);
    replacement.next := item.next;
    replacement.prev := item.prev;
    if replacement.next != null {
      replacement.next.prev := replacement;
    }
    if parent.child == item {
      if parent.child.prev == parent.child {
        replacement.prev := replacement;
      }
      parent.child := replacement;
    } else {
      if replacement.prev != null {
        replacement.prev.next := replacement;
      }
      if replacement.next == null {
        parent.child.prev := replacement;
      }
    }
    if replacement != parent && replacement !in nodes { Replaced(parent, nodes, k, replacement); }
  }

  /**
   * `cJSON_ReplaceItemViaPointer`: `replacement` takes the place of child number `k`; one that is the parent
   * or another child spoils the list.
   */
  method Replace(parent: Node, item: Node, replacement: Node?, ghost nodes: seq<Node>, ghost k: nat) returns (ok: bool)
    requires IsChildList(parent, nodes) && k < |nodes| && nodes[k] == item
    modifies parent`child, replacement, nodes
    ensures ok <==> replacement != null
    ensures ok ==> (IsChildList(parent, nodes[k := replacement]) <==>
                    replacement == item || (replacement != parent && replacement !in nodes))
    ensures ok && replacement != item ==> item.next == null && item.prev == null
    ensures !ok ==> IsChildList(parent, nodes)
    ensures replacement != parent ==> ChildrenKept(nodes)
  {
    if parent.child == null || replacement == null {
      return false;
    }
    if replacement == item {
      assert nodes[k := replacement] == nodes;
      return true;
    }
    if replacement in nodes { StandsTwice(nodes, k, replacement); }
    assert nodes[k := replacement][k] == replacement;
    TakePlace(parent, item, replacement, nodes, k);
    item.next := null;
    item.prev := null;
    return true;
  }

  /** The parser's own list building: `n` new items, linked as they are read, closed at the end. */
  method BuildChildren(parent: Node, n: nat) returns (ghost nodes: seq<Node>)
    modifies parent`child
    ensures |nodes| == n && IsChildList(parent, nodes)
    ensures forall i :: 0 <= i < n ==> fresh(nodes[i]) && nodes[i].child == null
  {
    var head: Node?, current: Node? := null, null;
    nodes := [];
    var i := 0;
    while i < n
      invariant i == |nodes| <= n && parent !in nodes && Different(nodes) && Chained(nodes)
      invariant forall k :: 0 <= k < |nodes| ==> fresh(nodes[k]) && nodes[k].child == null
      invariant head == (if nodes == [] then null else nodes[0])
      invariant current == (if nodes == [] then null else nodes[|nodes| - 1])
    {
      var item := new Node();
      if head == null {
        current, head := item, item;
      } else {
        current.next := item;
        item.prev := current;
        current := item;
      }
      nodes := nodes + [item];
      i := i + 1;
    }
    if head != null {
      head.prev := current;
    }
    parent.child := head;
  }
}
