/** cJSON items as heap nodes: the doubly linked list of children, and deep copies. */
module JsonNodes {
  import opened Basics
  import opened JsonText

  datatype Kind = KFalse | KTrue | KNull | KNumber | KString | KArray | KObject

  /**
   * What an item holds besides its links: its type, number, string value and key; constKey is
   * cJSON_StringIsConst, which says that the key is not the item's own and is shared by its copies.
   */
  datatype Data = Data(kind: Kind, number: Number, valuestring: Option<bytes>, key: Option<bytes>, constKey: bool)

  class Node {
    var next: Node?
    var prev: Node?
    var child: Node?
    const data: Data

    constructor (data: Data)
      ensures next == null && prev == null && child == null && this.data == data
    {
      next, prev, child, this.data := null, null, null, data;
    }
  }

  /** The children of parent are exactly kids, in order: next and prev mirrored, null at both ends. */
  ghost predicate ChildList(parent: Node, kids: seq<Node>)
    reads parent`child, kids`next, kids`prev
  {
    && (forall i, j :: 0 <= i < j < |kids| ==> kids[i] != kids[j])
    && parent.child == (if kids == [] then null else kids[0])
    && (forall i {:trigger kids[i].next} :: 0 <= i < |kids| ==>
          kids[i].next == if i + 1 < |kids| then kids[i + 1] else null)
    && (forall i {:trigger kids[i].prev} :: 0 <= i < |kids| ==>
          kids[i].prev == if i > 0 then kids[i - 1] else null)
  }

  ghost function NonNull(n: Node?): set<Node> {
    if n == null then {} else {n}
  }

  method GetArrayItem(list: Node, index: int, ghost kids: seq<Node>) returns (item: Node?)
    requires ChildList(list, kids)
    ensures item == if 0 <= index < |kids| then kids[index] else null
  {
    if index < 0 {
      return null;
    }
    var left := index;
    item := list.child;
    ghost var i := 0;
    while item != null && left > 0
      invariant 0 <= i <= |kids| && i + left == index && left >= 0
      invariant item == if i < |kids| then kids[i] else null
      decreases left
    {
      left := left - 1;
      item := item.next;
      i := i + 1;
    }
  }

  /** add_item_to_array: a detached item becomes the last child. */
  method AddItemToArray(list: Node?, item: Node?, ghost kids: seq<Node>) returns (ok: bool)
    requires list != null ==> ChildList(list, kids)
    requires list != null && item != null ==> item !in kids && item.next == null && item.prev == null
    modifies NonNull(list)`child, kids`next, NonNull(item)`prev
    ensures ok <==> list != null && item != null
    ensures ok ==> ChildList(list, kids + [item])
  {
    if item == null || list == null {
      return false;
    }
    var child := list.child;
    if child == null {
      list.child := item;
    } else {
      ghost var i := 0;
      while child.next != null
        invariant 0 <= i < |kids| && child == kids[i]
        decreases |kids| - i
      {
        child := child.next;
        i := i + 1;
      }
      child.next := item;
      item.prev := child;
    }
    return true;
  }

  /** The item leaves the list; its neighbours close up. */
  method DetachItemViaPointer(parent: Node?, item: Node?, ghost kids: seq<Node>, ghost k: nat)
    returns (detached: Node?)
    requires parent != null && item != null ==> ChildList(parent, kids) && k < |kids| && kids[k] == item
    modifies NonNull(parent)`child, kids`next, kids`prev
    ensures item == null && parent != null && old(ChildList(parent, kids)) ==> ChildList(parent, kids)
    ensures detached == if parent != null then item else null
    ensures detached != null ==>
      ChildList(parent, kids[..k] + kids[k + 1..]) && detached.next == null && detached.prev == null
  {
    if parent == null || item == null {
      return null;
    }
    if item.prev != null {
      item.prev.next := item.next;
    }
    if item.next != null {
      item.next.prev := item.prev;
    }
    if item == parent.child {
      parent.child := item.next;
    }
    item.prev := null;
    item.next := null;
    return item;
  }

  method DetachItemFromArray(list: Node, which: int, ghost kids: seq<Node>) returns (detached: Node?)
    requires ChildList(list, kids)
    modifies list`child, kids`next, kids`prev
    ensures if 0 <= which < |kids| then
              detached == kids[which] && detached.next == null && detached.prev == null
              && ChildList(list, kids[..which] + kids[which + 1..])
            else detached == null && ChildList(list, kids)
  {
    if which < 0 {
      return null;
    }
    var item := GetArrayItem(list, which, kids);
    detached := DetachItemViaPointer(list, item, kids, which);
  }

  /** A detached item is put in front of the child at `which`, or appended when there is none. */
  method InsertItemInArray(list: Node, which: int, newitem: Node, ghost kids: seq<Node>)
    requires ChildList(list, kids) && newitem !in kids && newitem.next == null && newitem.prev == null
    modifies list`child, kids`next, kids`prev, newitem`next, newitem`prev
    ensures which < 0 ==> ChildList(list, kids)
    ensures 0 <= which < |kids| ==> ChildList(list, kids[..which] + [newitem] + kids[which..])
    ensures which >= |kids| ==> ChildList(list, kids + [newitem])
  {
    if which < 0 {
      return;
    }
    var after := GetArrayItem(list, which, kids);
    if after == null {
      var added := AddItemToArray(list, newitem, kids);
      return;
    }
    InsertBefore(list, after, newitem, kids, which);
  }

  lemma OneMore(kids: seq<Node>, newitem: Node, k: nat, more: seq<Node>)
    requires newitem !in kids && k < |kids| && more == kids[..k] + [newitem] + kids[k..]
    requires forall i, j :: 0 <= i < j < |kids| ==> kids[i] != kids[j]
    ensures |more| == |kids| + 1 && forall i, j :: 0 <= i < j < |more| ==> more[i] != more[j]
    ensures forall i :: 0 <= i < |more| ==>
      more[i] == if i < k then kids[i] else if i == k then newitem else kids[i - 1]
  {
  }

  /** A detached item is put in front of the child `after`. */
  method InsertBefore(list: Node, after: Node, newitem: Node, ghost kids: seq<Node>, ghost k: nat)
    requires ChildList(list, kids) && newitem !in kids && k < |kids| && after == kids[k]
    modifies list`child, kids`next, kids`prev, newitem`next, newitem`prev
    ensures ChildList(list, kids[..k] + [newitem] + kids[k..])
  {
    ghost var more := kids[..k] + [newitem] + kids[k..];
    OneMore(kids, newitem, k, more);
    newitem.next := after;
    newitem.prev := after.prev;
    after.prev := newitem;
    if after == list.child {
      list.child := newitem;
    } else {
      newitem.prev.next := newitem;
    }
  }

  /** The replacement takes over the item's place; the item is unlinked for deletion. */
  method ReplaceItemViaPointer(parent: Node?, item: Node?, replacement: Node?, ghost kids: seq<Node>, ghost k: nat)
    returns (ok: bool)
    requires parent != null && item != null && replacement != null ==>
      ChildList(parent, kids) && k < |kids| && kids[k] == item && (replacement !in kids || replacement == item)
    modifies NonNull(parent)`child, kids`next, kids`prev, NonNull(replacement)`next, NonNull(replacement)`prev
    ensures ok <==> parent != null && item != null && replacement != null
    ensures ok ==> ChildList(parent, kids[k := replacement])
    ensures ok && replacement != item ==> item.next == null && item.prev == null
  {
    if parent == null || replacement == null || item == null {
      return false;
    }
    if replacement == item {
      return true;
    }
    ghost var list := kids[k := replacement];
    assert forall i :: 0 <= i < |kids| ==> list[i] == if i == k then replacement else kids[i];
    replacement.next := item.next;
    replacement.prev := item.prev;
    if replacement.next != null {
      replacement.next.prev := replacement;
    }
    if replacement.prev != null {
      replacement.prev.next := replacement;
    }
    if parent.child == item {
      parent.child := replacement;
    }
    item.next := null;
    item.prev := null;
    return true;
  }

  // --- deep copies ---

  /** The nodes of a tree, in shape; what the nodes hold is in the heap. */
  datatype Shape = Shape(node: Node, kids: seq<Shape>)

  ghost function Nodes(ts: seq<Shape>): (ns: seq<Node>)
    ensures |ns| == |ts| && forall i :: 0 <= i < |ts| ==> ns[i] == ts[i].node
  {
    seq(|ts|, i requires 0 <= i < |ts| => ts[i].node)
  }

  ghost function Footprint(t: Shape): (ns: set<Node>)
    ensures t.node in ns && Inside(t.kids) <= ns
    decreases t, 1
  {
    {t.node} + Inside(t.kids)
  }

  ghost function Inside(ts: seq<Shape>): (ns: set<Node>)
    ensures forall i :: 0 <= i < |ts| ==> Footprint(ts[i]) <= ns
    decreases ts, 0
  {
    if ts == [] then {} else Footprint(ts[0]) + Inside(ts[1..])
  }

  /** No node occurs twice in the tree. */
  ghost predicate Distinct(t: Shape)
    decreases t, 1
  {
    t.node !in Inside(t.kids) && AllDistinct(t.kids)
  }

  ghost predicate AllDistinct(ts: seq<Shape>)
    decreases ts, 0
  {
    ts == [] || (Distinct(ts[0]) && Footprint(ts[0]) !! Inside(ts[1..]) && AllDistinct(ts[1..]))
  }

  /** Every node of the tree has exactly its shape's children. */
  ghost predicate Linked(t: Shape)
    reads t.node`child, Inside(t.kids)`child, Inside(t.kids)`next, Inside(t.kids)`prev
    decreases t
  {
    && ChildList(t.node, Nodes(t.kids))
    && forall i :: 0 <= i < |t.kids| ==> Linked(t.kids[i])
  }

  /** What a tree of nodes holds, whichever nodes hold it. */
  datatype Tree = Tree(data: Data, kids: seq<Tree>)

  ghost function Content(t: Shape): Tree
    decreases t, 1
  {
    Tree(t.node.data, Contents(t.kids))
  }

  ghost function Contents(ts: seq<Shape>): (r: seq<Tree>)
    ensures |r| == |ts| && forall i :: 0 <= i < |ts| ==> r[i] == Content(ts[i])
    decreases ts, 0
  {
    if ts == [] then [] else [Content(ts[0])] + Contents(ts[1..])
  }

  /** The allocations a copy takes: the items, and the strings they own. */
  ghost function Allocations(t: Shape, recurse: bool): nat
    decreases t, 1
  {
    DataAllocations(t.node.data) + if recurse then AllAllocations(t.kids) else 0
  }

  ghost function AllAllocations(ts: seq<Shape>): nat
    decreases ts, 0
  {
    if ts == [] then 0 else Allocations(ts[0], true) + AllAllocations(ts[1..])
  }

  function DataAllocations(d: Data): nat {
    1 + (if d.valuestring.Some? then 1 else 0) + (if d.key.Some? && !d.constKey then 1 else 0)
  }

  lemma {:induction false} InsideGrows(ts: seq<Shape>, t: Shape)
    ensures Inside(ts + [t]) == Inside(ts) + Footprint(t)
  {
    if ts == [] {
      assert (ts + [t])[1..] == [];
    } else {
      InsideGrows(ts[1..], t);
      assert (ts + [t])[1..] == ts[1..] + [t];
    }
  }

  lemma {:induction false} DistinctGrows(ts: seq<Shape>, t: Shape)
    requires AllDistinct(ts) && Distinct(t) && Footprint(t) !! Inside(ts)
    ensures AllDistinct(ts + [t])
  {
    if ts == [] {
      assert (ts + [t])[1..] == [];
    } else {
      DistinctGrows(ts[1..], t);
      InsideGrows(ts[1..], t);
      assert (ts + [t])[1..] == ts[1..] + [t];
    }
  }

  lemma {:induction false} Apart(ts: seq<Shape>, i: nat, j: nat)
    requires AllDistinct(ts) && i < |ts| && j < |ts|
    ensures Distinct(ts[i]) && (i != j ==> Footprint(ts[i]) !! Footprint(ts[j]))
    decreases ts
  {
    hide Inside, Footprint, Distinct;
    var rest := ts[1..];
    assert AllDistinct(rest) && Distinct(ts[0]) && Footprint(ts[0]) !! Inside(rest);
    if i > 0 && j > 0 {
      Apart(rest, i - 1, j - 1);
    } else if i > 0 {
      Apart(rest, i - 1, i - 1);
      assert Footprint(rest[i - 1]) <= Inside(rest);
    } else if j > 0 {
      assert Footprint(rest[j - 1]) <= Inside(rest);
    }
  }

  lemma {:induction false} RootsApart(ts: seq<Shape>)
    requires AllDistinct(ts)
    ensures forall i, j :: 0 <= i < |ts| && 0 <= j < |ts| ==> ts[i].node !in Inside(ts[j].kids)
    ensures forall i, j :: 0 <= i < j < |ts| ==> ts[i].node != ts[j].node
  {
    forall i, j | 0 <= i < |ts| && 0 <= j < |ts|
      ensures ts[i].node !in Inside(ts[j].kids) && (i < j ==> ts[i].node != ts[j].node)
    {
      Apart(ts, i, j);
    }
  }

  lemma {:induction false} InsidePrefix(ts: seq<Shape>, i: nat)
    requires i <= |ts|
    ensures Inside(ts[..i]) <= Inside(ts)
    decreases ts
  {
    if i > 0 {
      InsidePrefix(ts[1..], i - 1);
      assert ts[..i][1..] == ts[1..][..i - 1];
    }
  }

  lemma Outside(ts: seq<Shape>, n: Node)
    requires n !in Inside(ts)
    ensures forall j :: 0 <= j < |ts| ==> n != ts[j].node && n !in Inside(ts[j].kids)
  {
    forall j | 0 <= j < |ts| ensures n != ts[j].node && n !in Inside(ts[j].kids) {
      assert Footprint(ts[j]) <= Inside(ts);
    }
  }

  lemma {:induction false} AllocationsGrow(ts: seq<Shape>, i: nat)
    requires i < |ts|
    ensures AllAllocations(ts[..i + 1]) == AllAllocations(ts[..i]) + Allocations(ts[i], true)
    decreases i
  {
    if i > 0 {
      AllocationsGrow(ts[1..], i - 1);
      assert ts[..i + 1][1..] == ts[1..][..i] && ts[..i][1..] == ts[1..][..i - 1];
    } else {
      assert ts[..1][1..] == [] && ts[..0] == [];
    }
  }

  lemma {:induction false} AllocationsMonotone(ts: seq<Shape>, i: nat)
    requires i <= |ts|
    ensures AllAllocations(ts[..i]) <= AllAllocations(ts)
    decreases |ts| - i
  {
    if i < |ts| {
      AllocationsGrow(ts, i);
      AllocationsMonotone(ts, i + 1);
    } else {
      assert ts[..i] == ts;
    }
  }

  /** The allocations the first i copies take. */
  ghost function Spent(ts: seq<Shape>, i: nat): nat
    requires i <= |ts|
  {
    AllAllocations(ts[..i])
  }

  lemma SpentEnds(ts: seq<Shape>)
    ensures Spent(ts, 0) == 0 && Spent(ts, |ts|) == AllAllocations(ts)
  {
    assert ts[..|ts|] == ts;
  }

  lemma SpentGrows(ts: seq<Shape>, i: nat)
    requires i < |ts|
    ensures Spent(ts, i + 1) == Spent(ts, i) + Allocations(ts[i], true) <= AllAllocations(ts)
  {
    AllocationsGrow(ts, i);
    AllocationsMonotone(ts, i + 1);
  }

  /** The copy of a child is hung behind the last one, or becomes the first. */
  method LinkChild(newitem: Node, last: Node?, newchild: Node, ghost us: seq<Shape>, ghost u: Shape)
    requires u.node == newchild && AllDistinct(us + [u]) && newitem !in Inside(us + [u])
    requires ChildList(newitem, Nodes(us)) && newchild.next == null && newchild.prev == null
    requires last == if us != [] then us[|us| - 1].node else null
    requires Linked(u) && forall j :: 0 <= j < |us| ==> Linked(us[j])
    modifies newitem`child, NonNull(last)`next, newchild`prev
    ensures ChildList(newitem, Nodes(us + [u]))
    ensures Linked(u) && forall j :: 0 <= j < |us| ==> Linked(us[j])
  {
    hide Linked, Inside, Footprint, Distinct, AllDistinct, Content, Contents;
    ghost var all := us + [u];
    RootsApart(all);
    Outside(all, newitem);
    assert forall j :: 0 <= j < |us| ==> all[j] == us[j];
    assert all[|us|] == u && Nodes(all) == Nodes(us) + [newchild];
    if last != null {
      last.next := newchild;
      newchild.prev := last;
    } else {
      newitem.child := newchild;
    }
  }

  /** One child is copied and hung below newitem. */
  method DuplicateChild(newitem: Node, last: Node?, child: Node, room: nat, ghost t: Shape, ghost us: seq<Shape>)
    returns (newchild: Node?, left: nat, ghost u: Shape)
    requires child == t.node && Linked(t) && allocated(Footprint(t)) && newitem !in Footprint(t)
    requires allocated(Inside(us)) && AllDistinct(us) && newitem !in Inside(us) && ChildList(newitem, Nodes(us))
    requires last == if us != [] then us[|us| - 1].node else null
    requires forall j :: 0 <= j < |us| ==> Linked(us[j])
    modifies newitem`child, NonNull(last)`next
    ensures newchild != null <==> Allocations(t, true) <= room
    ensures newchild != null ==>
      && u.node == newchild && fresh(Footprint(u)) && allocated(Footprint(u))
      && Inside(us + [u]) == Inside(us) + Footprint(u) && AllDistinct(us + [u])
      && ChildList(newitem, Nodes(us + [u]))
      && Linked(u) && (forall j :: 0 <= j < |us| ==> Linked(us[j]))
      && Content(u) == Content(t) && left == room - Allocations(t, true)
    decreases t, 1
  {
    hide ChildList, Linked, Inside, Footprint, Distinct, AllDistinct, Content, Contents, AllAllocations, Allocations;
    newchild, left, u := Duplicate(child, true, room, t);
    if newchild != null {
      InsideGrows(us, u);
      DistinctGrows(us, u);
      LinkChild(newitem, last, newchild, us, u);
    }
  }

  /** One turn of the loop over the children of item, which stay as they are; us grows to `more`. */
  method DuplicateNext(newitem: Node, item: Node, last: Node?, child: Node, room: nat, ghost kids: seq<Shape>,
                       ghost us: seq<Shape>)
    returns (newchild: Node?, left: nat, ghost more: seq<Shape>)
    requires ChildList(item, Nodes(kids)) && (forall j :: 0 <= j < |kids| ==> Linked(kids[j])) && newitem != item
    requires |us| < |kids| && child == kids[|us|].node && allocated(Inside(kids)) && newitem !in Inside(kids)
    requires allocated(Inside(us)) && AllDistinct(us) && newitem !in Inside(us) && ChildList(newitem, Nodes(us))
    requires last == if us != [] then us[|us| - 1].node else null
    requires Inside(us) !! Inside(kids)
    requires forall j :: 0 <= j < |us| ==> Linked(us[j]) && Content(us[j]) == Content(kids[j])
    modifies newitem`child, NonNull(last)`next
    ensures ChildList(item, Nodes(kids)) && forall j :: 0 <= j < |kids| ==> Linked(kids[j])
    ensures newchild != null <==> Allocations(kids[|us|], true) <= room
    ensures newchild != null ==>
      && |more| == |us| + 1 && more[|us|].node == newchild && left == room - Allocations(kids[|us|], true)
      && child.next == (if |more| < |kids| then kids[|more|].node else null)
      && fresh(Inside(more) - Inside(us)) && allocated(Inside(more)) && AllDistinct(more)
      && ChildList(newitem, Nodes(more)) && Inside(more) !! Inside(kids)
      && forall j :: 0 <= j < |more| ==> Linked(more[j]) && Content(more[j]) == Content(kids[j])
    decreases kids, 0
  {
    hide ChildList, Linked, Inside, Footprint, Distinct, AllDistinct, Content, Contents, AllAllocations, Allocations;
    assert forall n :: n in Nodes(kids) ==> n in Inside(kids);
    assert last != null ==> last in Footprint(us[|us| - 1]) && last !in Inside(kids);
    ghost var u: Shape;
    newchild, left, u := DuplicateChild(newitem, last, child, room, kids[|us|], us);
    more := us + [u];
    NextOf(item, kids, |us|);
  }

  /** The children are copied one after the other and hung below newitem. */
  method DuplicateChildren(newitem: Node, item: Node, room: nat, ghost kids: seq<Shape>)
    returns (ok: bool, left: nat, ghost us: seq<Shape>)
    requires ChildList(item, Nodes(kids)) && forall j :: 0 <= j < |kids| ==> Linked(kids[j])
    requires ChildList(newitem, []) && newitem !in Inside(kids) && newitem != item && allocated(Inside(kids))
    modifies newitem`child
    ensures ok <==> AllAllocations(kids) <= room
    ensures ok ==>
      && fresh(Inside(us)) && allocated(Inside(us)) && AllDistinct(us) && ChildList(newitem, Nodes(us))
      && (forall j :: 0 <= j < |us| ==> Linked(us[j]))
      && Contents(us) == Contents(kids) && left == room - AllAllocations(kids)
    decreases kids, 1
  {
    hide ChildList, Linked, Inside, Footprint, Distinct, AllDistinct, Content, Contents, AllAllocations, Allocations,
         Spent;
    NothingYet();
    SpentEnds(kids);
    FirstOf(item, kids);
    ok, left, us := true, room, [];
    var child := item.child;
    var next: Node? := null;
    ghost var i := 0;
    while child != null
      invariant 0 <= i <= |kids| && |us| == i
      invariant child == if i < |kids| then kids[i].node else null
      invariant left + Spent(kids, i) == room
      invariant fresh(Inside(us)) && allocated(Inside(us)) && AllDistinct(us)
      invariant next == if us != [] then us[i - 1].node else null
      invariant Inside(us) !! Inside(kids) && ChildList(newitem, Nodes(us))
      invariant ChildList(item, Nodes(kids))
      invariant forall j :: 0 <= j < |kids| ==> Linked(kids[j])
      invariant forall j :: 0 <= j < |us| ==> Linked(us[j]) && Content(us[j]) == Content(kids[j])
      decreases |kids| - i
    {
      SpentGrows(kids, i);
      var newchild: Node?;
      newchild, left, us := DuplicateNext(newitem, item, next, child, left, kids, us);
      if newchild == null {
        return false, left, us;
      }
      next := newchild;
      child := child.next;
      i := i + 1;
    }
  }

  /** A new item, and copies of the strings it owns, one allocation after the other. */
  method CopyItem(data: Data, room: nat) returns (newitem: Node?, left: nat)
    ensures newitem != null <==> DataAllocations(data) <= room
    ensures newitem != null ==>
      && fresh(newitem) && newitem.data == data && newitem.child == null && newitem.next == null && newitem.prev == null
      && left == room - DataAllocations(data)
  {
    newitem, left := null, room;
    if left == 0 {
      return;
    }
    left := left - 1;
    if data.valuestring.Some? {
      if left == 0 {
        return;
      }
      left := left - 1;
    }
    if data.key.Some? && !data.constKey {
      if left == 0 {
        return;
      }
      left := left - 1;
    }
    newitem := new Node(data);
  }

  /**
   * cJSON_Duplicate when only the next `room` allocations succeed: the copy is a disjoint tree of fresh nodes
   * holding the same, and there is none exactly when the allocations it takes do not all succeed.
   */
  method Duplicate(item: Node?, recurse: bool, room: nat, ghost t: Shape)
    returns (copy: Node?, left: nat, ghost u: Shape)
    requires item != null ==> item == t.node && Linked(t) && allocated(Footprint(t))
    ensures copy != null <==> item != null && Allocations(t, recurse) <= room
    ensures copy != null ==>
      && u.node == copy && copy.next == null && copy.prev == null
      && fresh(Footprint(u)) && allocated(Footprint(u)) && Distinct(u) && Linked(u)
      && Content(u) == (if recurse then Content(t) else Tree(t.node.data, []))
      && left == room - Allocations(t, recurse)
    decreases t, 0
  {
    hide Linked, Inside, Footprint, Distinct, AllDistinct, Content, Contents, AllAllocations, Allocations;
    copy, left, u := null, room, t;
    if item == null {
      return;
    }
    Opened(t, recurse);
    var newitem: Node?;
    newitem, left := CopyItem(item.data, room);
    if newitem == null {
      return;
    }
    assert newitem !in Footprint(t) && Nodes([]) == [];
    NothingYet();
    ghost var us: seq<Shape> := [];
    if recurse {
      var ok: bool;
      ok, left, us := DuplicateChildren(newitem, item, left, t.kids);
      if !ok {
        return;
      }
    }
    Built(newitem, us);
    copy, u := newitem, Shape(newitem, us);
  }

  lemma FirstOf(item: Node, kids: seq<Shape>)
    requires ChildList(item, Nodes(kids))
    ensures item.child == if kids == [] then null else kids[0].node
  {
  }

  lemma NextOf(item: Node, kids: seq<Shape>, i: nat)
    requires ChildList(item, Nodes(kids)) && i < |kids|
    ensures kids[i].node.next == if i + 1 < |kids| then kids[i + 1].node else null
  {
    assert kids[i].node.next == Nodes(kids)[i].next;
  }

  lemma Opened(t: Shape, recurse: bool)
    requires Linked(t)
    ensures ChildList(t.node, Nodes(t.kids)) && forall j :: 0 <= j < |t.kids| ==> Linked(t.kids[j])
    ensures Footprint(t) == {t.node} + Inside(t.kids) && Content(t) == Tree(t.node.data, Contents(t.kids))
    ensures Allocations(t, recurse) == DataAllocations(t.node.data) + if recurse then AllAllocations(t.kids) else 0
  {
  }

  lemma Built(n: Node, us: seq<Shape>)
    requires n !in Inside(us) && AllDistinct(us) && ChildList(n, Nodes(us))
    requires forall j :: 0 <= j < |us| ==> Linked(us[j])
    ensures var u := Shape(n, us);
      && Distinct(u) && Linked(u) && Footprint(u) == {n} + Inside(us)
      && Content(u) == Tree(n.data, Contents(us))
  {
  }

  lemma NothingYet()
    ensures Inside([]) == {} && AllDistinct([]) && Contents([]) == []
  {
  }
}
