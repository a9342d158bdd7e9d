/**
 The children of an item: a doubly linked list in which the first node's `prev` is the last node and the last
 node's `next` is null.
 */
module ChildList {
  import opened Items

  /** The pointers under `parent` spell `parent.children`, which holds no node twice. */
  ghost predicate Linked(parent: Item)
    reads parent`child, parent`children, parent.children`next, parent.children`prev
  {
    parent.Chained() && Distinct(parent.children) && parent !in parent.children
  }

  ghost predicate Distinct(s: seq<Item>) {
    forall i, j :: 0 <= i < j < |s| ==> s[i] != s[j]
  }

  ghost function Nodes(parent: Item?): set<Item>
    reads Only(parent)`children
  {
    if parent == null then {} else set x | x in parent.children
  }

  /** A node that is not in the list of `parent`. */
  ghost predicate Outside(item: Item, parent: Item)
    reads parent`children
  {
    item != parent && item !in parent.children
  }

  /** A node that may be put at the end of the list of `parent`. */
  ghost predicate Free(item: Item, parent: Item)
    reads item`next, parent`children
  {
    item.next == null && Outside(item, parent)
  }

  method GetArraySize(parent: Item?) returns (size: nat)
    requires parent != null ==> Linked(parent)
    ensures size == if parent == null then 0 else |parent.children|
  {
    size := 0;
    if parent == null {
      return;
    }
    var current := parent.child;
    while current != null
      invariant size <= |parent.children|
      invariant if size < |parent.children| then current == parent.children[size] else current == null
      decreases |parent.children| - size
    {
      size := size + 1;
      current := current.next;
    }
  }

  method GetArrayItem(parent: Item?, index: int) returns (item: Item?)
    requires parent != null ==> Linked(parent)
    ensures item == if parent != null && 0 <= index < |parent.children| then parent.children[index] else null
  {
    if index < 0 || parent == null {
      return null;
    }
    item := parent.child;
    var k := index;
    while item != null && k > 0
      invariant 0 <= k <= index
      invariant if index - k < |parent.children| then item == parent.children[index - k] else item == null
      decreases k
    {
      k := k - 1;
      item := item.next;
    }
  }

  method SuffixObject(prev: Item, item: Item)
    modifies prev`next, item`prev
    ensures prev.next == item && item.prev == prev
    ensures prev != item ==> unchanged(prev`prev) && unchanged(item`next)
  {
    prev.next := item;
    item.prev := prev;
  }

  method AddItemToArray(parent: Item?, item: Item?) returns (ok: bool)
    requires parent != null ==> Linked(parent)
    requires parent != null && item != null && item != parent ==> Free(item, parent)
    modifies Only(parent)`child, Only(parent)`children
    modifies (Nodes(parent) + Only(item))`next, (Nodes(parent) + Only(item))`prev
    ensures ok <==> parent != null && item != null && parent != item
    ensures ok ==> Linked(parent) && parent.children == old(parent.children) + [item]
    ensures !ok && parent != null ==> Linked(parent) && parent.children == old(parent.children)
  {
    if item == null || parent == null || parent == item {
      return false;
    }
    var child := parent.child;
    if child == null {
      parent.child := item;
      item.prev := item;
      item.next := null;
    } else if child.prev != null {
      SuffixObject(child.prev, item);
      parent.child.prev := item;
    }
    parent.children := parent.children + [item];
    return true;
  }

  /** Where an item is in a list. */
  ghost function Place(s: seq<Item>, item: Item): (k: nat)
    requires item in s
    ensures k < |s| && s[k] == item
  {
    var k: nat :| k < |s| && s[k] == item; k
  }

  ghost function Without<T>(s: seq<T>, k: nat): seq<T>
    requires k < |s|
  {
    s[..k] + s[k + 1..]
  }

  /** Takes `item` out of its parent's list. */
  method DetachItemViaPointer(parent: Item?, item: Item?) returns (detached: Item?)
    requires parent != null ==> Linked(parent) && (item != null ==> item in parent.children)
    modifies Only(parent)`child, Only(parent)`children, Nodes(parent)`next, Nodes(parent)`prev
    ensures detached == if parent == null then null else item
    ensures parent != null ==> Linked(parent)
    ensures parent != null && item == null ==> parent.children == old(parent.children)
    ensures parent != null && item != null ==>
              && item.next == null && item.prev == null
              && item !in parent.children
              && parent.children == Without(old(parent.children), Place(old(parent.children), item))
  {
    if parent == null || item == null {
      return null;
    }
    ghost var s := parent.children;
    ghost var k := Place(s, item);
    if item != parent.child {
      item.prev.next := item.next;
    }
    if item.next != null {
      item.next.prev := item.prev;
    }
    if item == parent.child {
      parent.child := item.next;
    } else if item.next == null {
      parent.child.prev := item.prev;
    }
    item.prev := null;
    item.next := null;
    parent.children := Without(s, k);
    return item;
  }

  method DetachItemFromArray(parent: Item?, which: int) returns (detached: Item?)
    requires parent != null ==> Linked(parent)
    modifies Only(parent)`child, Only(parent)`children, Nodes(parent)`next, Nodes(parent)`prev
    ensures detached ==
            if parent != null && 0 <= which < |old(parent.children)| then old(parent.children)[which] else null
    ensures parent != null ==>
              && Linked(parent)
              && parent.children ==
                 (if detached == null then old(parent.children) else Without(old(parent.children), which))
    ensures detached != null ==> detached.next == null && detached.prev == null && detached !in parent.children
  {
    if which < 0 {
      return null;
    }
    var item := GetArrayItem(parent, which);
    detached := DetachItemViaPointer(parent, item);
  }

  /** Puts `newitem` before the node at `which`, or at the end if there is none. */
  method InsertItemInArray(parent: Item?, which: int, newitem: Item?) returns (ok: bool)
    requires parent != null ==> Linked(parent)
    requires parent != null && newitem != null && newitem != parent ==> Free(newitem, parent)
    requires parent != null && 0 <= which < |parent.children| ==> newitem != null && newitem != parent
    modifies Only(parent)`child, Only(parent)`children
    modifies (Nodes(parent) + Only(newitem))`next, (Nodes(parent) + Only(newitem))`prev
    ensures ok <==> which >= 0 && parent != null && newitem != null && parent != newitem
    ensures ok ==>
              && Linked(parent)
              && var s := old(parent.children);
                 parent.children == if which < |s| then s[..which] + [newitem] + s[which..] else s + [newitem]
    ensures !ok && parent != null ==> Linked(parent) && parent.children == old(parent.children)
  {
    if which < 0 {
      return false;
    }
    var after := GetArrayItem(parent, which);
    if after == null {
      ok := AddItemToArray(parent, newitem);
      return;
    }
    ghost var s := parent.children;
    newitem.next := after;
    newitem.prev := after.prev;
    after.prev := newitem;
    if after == parent.child {
      parent.child := newitem;
    } else {
      newitem.prev.next := newitem;
    }
    parent.children := s[..which] + [newitem] + s[which..];
    return true;
  }

  /** Puts `replacement` in the place of `item`, which is then deleted. */
  method ReplaceItemViaPointer(parent: Item?, item: Item?, replacement: Item?) returns (ok: bool)
    requires parent != null && item != null ==> Linked(parent) && item in parent.children
    requires parent != null && replacement != null && replacement != item ==> Outside(replacement, parent)
    modifies Only(parent)`child, Only(parent)`children
    modifies (Nodes(parent) + Only(replacement))`next, (Nodes(parent) + Only(replacement))`prev
    ensures ok <==> parent != null && item != null && replacement != null
    ensures ok ==>
              && Linked(parent)
              && parent.children == old(parent.children)[Place(old(parent.children), item) := replacement]
    ensures ok && item != replacement ==> item.next == null && item.prev == null && item !in parent.children
    ensures !ok && parent != null ==> parent.children == old(parent.children)
  {
    if parent == null || replacement == null || item == null {
      return false;
    }
    ghost var s := parent.children;
    ghost var k := Place(s, item);
    if replacement == item {
      assert s[k := replacement] == s;
      return true;
    }
    replacement.next := item.next;
    replacement.prev := item.prev;
    if replacement.next != null {
      replacement.next.prev := replacement;
    }
    if parent.child == item {
      if parent.child.prev == parent.child {
        replacement.prev := replacement;
      }
      parent.child := replacement;
    } else {
      if replacement.prev != null {
        replacement.prev.next := replacement;
      }
      if replacement.next == null {
        parent.child.prev := replacement;
      }
    }
    item.next := null;
    item.prev := null;
    parent.children := s[k := replacement];
    return true;
  }

  /** What was inserted can be detached again, and the list is what it was. */
  lemma DetachUndoesInsert<T>(s: seq<T>, which: nat, x: T)
    ensures
      var at := if which < |s| then which else |s|;
      Without(if which < |s| then s[..which] + [x] + s[which..] else s + [x], at) == s
  {
    var at := if which < |s| then which else |s|;
    assert s[..at] + s[at..] == s;
  }

  /** Inserting and detaching the same position again leaves the parent's children as they were. */
  method InsertThenDetach(parent: Item, which: nat, newitem: Item)
    requires Linked(parent) && newitem != parent && Free(newitem, parent)
    modifies parent`child, parent`children, (Nodes(parent) + {newitem})`next, (Nodes(parent) + {newitem})`prev
    ensures Linked(parent) && parent.children == old(parent.children)
    ensures newitem.next == null && newitem.prev == null
  {
    ghost var s := parent.children;
    var at := GetArraySize(parent);
    at := if which < at then which else at;
    var ok := InsertItemInArray(parent, which, newitem);
    var detached := DetachItemFromArray(parent, at);
    DetachUndoesInsert(s, which, newitem);
  }
}
