/** Copying an item: `cJSON_Duplicate` on the linked items themselves. */
module Duplicate {
  import opened Bytes
  import opened Items
  import opened JsonCompare
  import opened JsonText

  /** What is left of a value when the children are not copied. */
  function Shallow(v: Json): Json {
    match v
    case Array(_) => Array([])
    case Object(_) => Object([])
    case _ => v
  }

  /** `copies` stand for the first children of `item`. */
  ghost predicate CopiesOf(copies: seq<Item>, item: Item)
    reads item`children, item.children`value, item.children`key, copies`value, copies`key
  {
    && |copies| <= |item.children|
    && forall k :: 0 <= k < |copies| ==>
         copies[k].value == item.children[k].value && copies[k].key == item.children[k].key
  }

  lemma NoCopies(item: Item)
    ensures CopiesOf([], item)
  {
  }

  lemma CopiesMore(copies: seq<Item>, item: Item)
    requires copies != [] && CopiesOf(copies[..|copies| - 1], item) && |copies| <= |item.children|
    requires var k := |copies| - 1; copies[k].value == item.children[k].value && copies[k].key == item.children[k].key
    ensures CopiesOf(copies, item)
  {
    var front := copies[..|copies| - 1];
    forall k | 0 <= k < |copies|
      ensures copies[k].value == item.children[k].value && copies[k].key == item.children[k].key
    {
      assert k < |front| ==> copies[k] == front[k];
    }
  }

  lemma CopySpells(copy: Item, item: Item)
    requires item.Valid() && |copy.children| == |item.children| && CopiesOf(copy.children, item)
    requires copy.kind == item.kind && copy.valuedouble == item.valuedouble && copy.valuestring == item.valuestring
    ensures copy.Spells(item.value)
  {
  }

  lemma ShallowLeaf(item: Item)
    requires item.Valid()
    ensures Leaf(item.kind, item.valuedouble, item.valuestring) == Shallow(item.value)
  {
  }

  /** A new item with the same value, none of whose nodes existed before; the original is left as it was. */
  method Duplicate(item: Item?, recurse: bool) returns (copy: Item?)
    requires item != null ==> item.Valid()
    ensures copy == null <==> item == null
    ensures item != null ==>
              && copy.Valid() && fresh(copy.repr)
              && copy.next == null && copy.prev == null && copy.key == item.key
              && copy.value == (if recurse then item.value else Shallow(item.value))
              && copy.kind == item.kind && copy.valuedouble == item.valuedouble && copy.valuestring == item.valuestring
              && |copy.children| == if recurse then |item.children| else 0
    decreases if item == null then {} else item.repr
  {
    hide Item.Valid, Item.Owns, Item.Chained, Item.Chaining, Item.Building, Item.Spells, CopiesOf, Leaf, Shallow;
    if item == null {
      return null;
    }
    var newitem := new Item(item.kind, item.valuedouble, item.valuestring, item.key);
    if !recurse {
      ShallowLeaf(item);
      return newitem;
    }
    var current := item.child;
    FirstChild(item);
    var last: Item? := null;
    ghost var i := 0;
    assert CopiesOf(newitem.children, item) by { NoCopies(item); }
    while current != null
      invariant i <= |item.children| && current == if i < |item.children| then item.children[i] else null
      invariant newitem.Building(last) && |newitem.children| == i && fresh(newitem.repr)
      invariant newitem in newitem.repr && Only(last) <= newitem.repr && Only(newitem.child) <= newitem.repr
      invariant newitem.next == null && newitem.prev == null && newitem.key == item.key
      invariant newitem.kind == item.kind && newitem.valuedouble == item.valuedouble &&
                newitem.valuestring == item.valuestring
      invariant CopiesOf(newitem.children, item)
      decreases |item.children| - i
    {
      ChildValid(item, i);
      var newchild := Duplicate(current, true);
      newitem.Hook(last, newchild);
      CopiesMore(newitem.children, item);
      last := newchild;
      i := i + 1;
      current := current.next;
    }
    CopySpells(newitem, item);
    newitem.Close(last, item.value);
    return newitem;
  }

  /** A recursive copy compares equal to its original if and only if no object in it gives one name two meanings. */
  method CompareWithCopy(item: Item) returns (copy: Item, same: bool)
    requires Comparable(item)
    ensures copy.Valid() && fresh(copy.repr) && copy.value == item.value
    ensures same <==> Consistent(item.value)
    ensures DistinctKeys(item.value) ==> same
  {
    hide Item.Valid, Integral, Consistent;
    copy := Duplicate(item, true);
    same := Compare(item, copy);
    if DistinctKeys(item.value) {
      DistinctIsConsistent(item.value);
    }
  }
}
