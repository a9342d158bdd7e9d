/** The items of `cJSON.c`: nodes that are linked to their siblings and hold the list of their children. */
module Items {
  import opened Bytes
  import opened JsonText

  datatype Kind = NullKind | FalseKind | TrueKind | NumberKind | StringKind | ArrayKind | ObjectKind

  /** The value of an item without children. */
  function Leaf(kind: Kind, valuedouble: real, valuestring: seq<byte>): Json {
    match kind
    case NullKind => Null
    case FalseKind => False
    case TrueKind => True
    case NumberKind => Number(valuedouble)
    case StringKind => String(valuestring)
    case ArrayKind => Array([])
    case ObjectKind => Object([])
  }

  ghost function Only(item: Item?): set<Item> { if item == null then {} else {item} }

  class Item {
    var next: Item?
    var prev: Item?
    var child: Item?
    var kind: Kind
    var valuedouble: real
    var valuestring: seq<byte>
    var key: seq<byte>
    /** The list that starts at `child`, everything under this item, and the value it stands for. */
    ghost var children: seq<Item>
    ghost var repr: set<Item>
    ghost var value: Json

    constructor (kind: Kind, valuedouble: real, valuestring: seq<byte>, key: seq<byte>)
      ensures next == null && prev == null && child == null && children == [] && repr == {this}
      ensures this.kind == kind && this.valuedouble == valuedouble && this.valuestring == valuestring && this.key == key
      ensures value == Leaf(kind, valuedouble, valuestring) && Valid() && Building(null)
    {
      next, prev, child := null, null, null;
      this.kind, this.valuedouble, this.valuestring, this.key := kind, valuedouble, valuestring, key;
      children, repr, value := [], {this}, Leaf(kind, valuedouble, valuestring);
    }

    /** The pointers under this item spell a tree, and the tree is `value`; its own links belong to its parent. */
    ghost predicate Valid()
      reads this`child, this`kind, this`valuedouble, this`valuestring, this`children, this`repr, this`value
      reads repr - {this}
      ensures Valid() ==> this in repr
      decreases repr, 1
    {
      Owns() && Chained() && Spells(value)
    }

    /** The children are trees that share nothing. */
    ghost predicate Owns()
      reads this`children, this`repr, repr - {this}
      ensures Owns() ==> this in repr && forall c :: c in children ==> c in repr
      decreases repr, 0
    {
      && this in repr
      && (forall c :: c in children ==> c in repr && this !in c.repr && c.repr <= repr && c.Valid())
      && (forall i, j :: 0 <= i < j < |children| ==> children[i].repr !! children[j].repr)
    }

    /** `child` heads the list, its `prev` is the last node, whose `next` is null; `next` and `prev` undo each other. */
    ghost predicate Chained()
      reads this`child, this`children, children`next, children`prev
    {
      Chaining(if children == [] then null else children[|children| - 1]) &&
      (children != [] ==> child.prev == children[|children| - 1])
    }

    /** The list so far, up to the node `last`; it does not close yet. */
    ghost predicate Chaining(last: Item?)
      reads this`child, this`children, children`next, children`prev
    {
      && (children == [] ==> child == null && last == null)
      && (children != [] ==> child == children[0] && last == children[|children| - 1] && last.next == null)
      && (forall i {:trigger children[i].next} :: 0 <= i < |children| - 1 ==> children[i].next == children[i + 1])
      && (forall i {:trigger children[i].prev} :: 0 < i < |children| ==> children[i].prev == children[i - 1])
    }

    ghost predicate Building(last: Item?)
      reads this`child, this`children, this`repr, repr - {this}
    {
      Owns() && Chaining(last)
    }

    /** The item's own fields and its children stand for `v`. */
    ghost predicate Spells(v: Json)
      reads this`kind, this`valuedouble, this`valuestring, this`children, children`key, children`value
    {
      match kind
      case ArrayKind =>
        v.Array? && |v.items| == |children| && forall i :: 0 <= i < |children| ==> v.items[i] == children[i].value
      case ObjectKind =>
        && v.Object? && |v.members| == |children|
        && forall i :: 0 <= i < |children| ==> v.members[i] == Member(children[i].key, children[i].value)
      case _ => children == [] && v == Leaf(kind, valuedouble, valuestring)
    }

    /** Puts a new node behind the last one. */
    method Hook(last: Item?, newchild: Item)
      requires Building(last) && newchild.Valid() && newchild.next == null && newchild.repr !! repr
      modifies this`child, this`children, this`repr, Only(last)`next, newchild`prev
      ensures Building(newchild)
      ensures children == old(children) + [newchild] && repr == old(repr) + newchild.repr
      ensures newchild in repr && child in repr && next == old(next) && prev == old(prev)
    {
      hide Valid, Chained, Spells;
      if last != null {
        last.next := newchild;
        newchild.prev := last;
      } else {
        child := newchild;
      }
      children := children + [newchild];
      repr := repr + newchild.repr;
    }

    /** Closes the list: the head's `prev` becomes the last node. */
    method Close(last: Item?, ghost v: Json)
      requires Building(last) && Spells(v)
      modifies this`value, Only(child)`prev
      ensures Valid() && value == v && next == old(next) && prev == old(prev)
    {
      hide Spells;
      if child != null {
        child.prev := last;
      }
      value := v;
    }
  }

  /** A tree by itself, linked to nothing. */
  ghost predicate Alone(item: Item, v: Json)
    reads item, item.repr
  {
    item.Valid() && item.value == v && item.next == null && item.prev == null
  }

  /** A list under construction by itself, up to the node `last`. */
  ghost predicate Growing(list: Item, last: Item?)
    reads list, list.repr
  {
    && list in list.repr && Only(last) <= list.repr && Only(list.child) <= list.repr
    && list.Building(last) && list.next == null && list.prev == null
  }

  /** The items stand for the values. */
  ghost predicate Stand(items: seq<Item>, vs: seq<Json>)
    reads items`value
  {
    |items| == |vs| && forall i :: 0 <= i < |items| ==> items[i].value == vs[i]
  }

  /** The items stand for the members, names included. */
  ghost predicate StandByName(items: seq<Item>, ms: seq<Member>)
    reads items`value, items`key
  {
    |items| == |ms| && forall i :: 0 <= i < |items| ==> Member(items[i].key, items[i].value) == ms[i]
  }

  /** What a child of a tree is, and what it is linked to. */
  lemma ChildValid(item: Item, i: nat)
    requires item.Valid() && i < |item.children|
    ensures item.children[i].Valid() && item.children[i].repr < item.repr
    ensures item.children[i].next == if i + 1 < |item.children| then item.children[i + 1] else null
  {
    assert item.children[i] in item.children;
  }

  lemma FirstChild(item: Item)
    requires item.Valid()
    ensures item.child == if item.children == [] then null else item.children[0]
  {
  }
}
