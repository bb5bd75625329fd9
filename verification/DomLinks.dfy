/** The sibling lists of the document tree: a node knows its first child, and the children
    are doubly linked, the first one's link back leading to the last. */
module DomLinks {
  import opened Escapes

  datatype Kind = DocumentKind | ElementKind | PcdataKind | CdataKind | CommentKind | PiKind | DeclarationKind | DoctypeKind

  /** A string up to its NUL. */
  type CText = s: seq<Byte> | 0 !in s

  datatype Text = Absent | Present(text: CText)

  datatype Attribute = Attribute(name: Text, value: Text)

  class Node {
    const kind: Kind
    /** The document node of the document whose memory the node lies in; nothing for a
        document node. */
    const owner: Node?
    var name: Text
    var value: Text
    var attributes: seq<Attribute>
    var parent: Node?
    var first: Node?
    var next: Node?
    /** `prev_sibling_c`: the previous sibling, or the last one for the first. */
    var prev: Node?

    constructor (kind: Kind, owner: Node?)
      ensures this.kind == kind && this.owner == owner && parent == null && first == null && next == null && prev == null
      ensures name == Absent && value == Absent && attributes == []
    {
      this.kind := kind;
      this.owner := owner;
      name, value, attributes := Absent, Absent, [];
      parent, first, next, prev := null, null, null, null;
    }

    /** `root()`: the document the node belongs to. */
    function Root(): Node {
      if owner == null then this else owner
    }
  }

  ghost function Elements(ks: seq<Node>): set<Node> {
    set k | k in ks
  }

  ghost function FirstOf(ks: seq<Node>): Node? {
    if ks == [] then null else ks[0]
  }

  ghost function NextOf(ks: seq<Node>, i: nat): Node?
    requires i < |ks|
  {
    if i + 1 < |ks| then ks[i + 1] else null
  }

  ghost function PrevOf(ks: seq<Node>, i: nat): Node?
    requires i < |ks|
  {
    if i == 0 then ks[|ks| - 1] else ks[i - 1]
  }

  ghost predicate Linked(p: Node, ks: seq<Node>, i: nat)
    requires i < |ks|
    reads {ks[i]}`parent, {ks[i]}`next, {ks[i]}`prev
  {
    ks[i].parent == p && ks[i].next == NextOf(ks, i) && ks[i].prev == PrevOf(ks, i)
  }

  /** The children of `p` are `ks`, in this order. */
  ghost predicate Children(p: Node, ks: seq<Node>)
    reads p`first, Elements(ks)`parent, Elements(ks)`next, Elements(ks)`prev
  {
    && p.first == FirstOf(ks)
    && (forall i: nat {:trigger Linked(p, ks, i)} :: i < |ks| ==> Linked(p, ks, i))
    && forall i, j :: 0 <= i < j < |ks| ==> ks[i] != ks[j]
  }

  ghost function HeadOf(ks: seq<Node>): set<Node> {
    if ks == [] then {} else {ks[0]}
  }

  ghost function LastOf(ks: seq<Node>): set<Node> {
    if ks == [] then {} else {ks[|ks| - 1]}
  }

  ghost function Insert(ks: seq<Node>, at: nat, c: Node): (ls: seq<Node>)
    requires at <= |ks|
    ensures |ls| == |ks| + 1
  {
    ks[..at] + [c] + ks[at..]
  }

  ghost function Remove(ks: seq<Node>, at: nat): (ls: seq<Node>)
    requires at < |ks|
    ensures |ls| == |ks| - 1
  {
    ks[..at] + ks[at + 1..]
  }

  /** Who stands at each place after an insertion, and between whom. */
  lemma InsertPlaces(ks: seq<Node>, at: nat, c: Node, i: nat)
    requires at <= |ks| && i <= |ks| && ks != []
    ensures Insert(ks, at, c)[i] == if i < at then ks[i] else if i == at then c else ks[i - 1]
    ensures NextOf(Insert(ks, at, c), i)
         == if i + 1 < at then NextOf(ks, i) else if i + 1 == at then c
            else if i == at then (if at < |ks| then ks[at] else null) else NextOf(ks, i - 1)
    ensures PrevOf(Insert(ks, at, c), i)
         == if i == 0 && at == |ks| then c
            else if i == at then PrevOf(ks, if at == |ks| then 0 else at) else if i == at + 1 then c
            else if i < at then PrevOf(ks, i) else PrevOf(ks, i - 1)
  {
  }

  lemma RemovePlaces(ks: seq<Node>, at: nat, i: nat)
    requires at < |ks| && i < |ks| - 1
    ensures Remove(ks, at)[i] == if i < at then ks[i] else ks[i + 1]
    ensures NextOf(Remove(ks, at), i)
         == if i + 1 < at then NextOf(ks, i) else if i + 1 == at then NextOf(ks, at) else NextOf(ks, i + 1)
    ensures PrevOf(Remove(ks, at), i)
         == if i == 0 && at == |ks| - 1 then PrevOf(ks, at)
            else if i < at then PrevOf(ks, i) else if i == at then PrevOf(ks, at) else PrevOf(ks, i + 1)
  {
  }

  /** `append_node`. */
  method AppendNode(child: Node, node: Node, ghost ks: seq<Node>)
    requires Children(node, ks) && child !in ks && child.next == null
    modifies child`parent, child`prev, node`first, LastOf(ks)`next, HeadOf(ks)`prev
    ensures Children(node, Insert(ks, |ks|, child))
  {
    ghost var ls := Insert(ks, |ks|, child);
    child.parent := node;
    var head := node.first;
    if head != null {
      assert Linked(node, ks, 0);
      var tail := head.prev;
      tail.next := child;
      child.prev := tail;
      head.prev := child;
    } else {
      node.first := child;
      child.prev := child;
    }
    forall i: nat | i < |ls| ensures Linked(node, ls, i) {
      if ks != [] {
        InsertPlaces(ks, |ks|, child, i);
        assert i < |ks| ==> old(Linked(node, ks, i));
      }
    }
  }

  /** `prepend_node`. */
  method PrependNode(child: Node, node: Node, ghost ks: seq<Node>)
    requires Children(node, ks) && child !in ks
    modifies child`parent, child`prev, child`next, node`first, HeadOf(ks)`prev
    ensures Children(node, Insert(ks, 0, child))
  {
    ghost var ls := Insert(ks, 0, child);
    child.parent := node;
    var head := node.first;
    if head != null {
      assert Linked(node, ks, 0);
      child.prev := head.prev;
      head.prev := child;
    } else {
      child.prev := child;
    }
    child.next := head;
    node.first := child;
    forall i: nat | i < |ls| ensures Linked(node, ls, i) {
      if ks != [] {
        InsertPlaces(ks, 0, child, i);
        assert i > 0 ==> old(Linked(node, ks, i - 1));
      }
    }
  }

  /** `insert_node_after`: `node` is child number `at`. */
  method InsertNodeAfter(child: Node, node: Node, ghost parent: Node, ghost ks: seq<Node>, ghost at: nat)
    requires Children(parent, ks) && child !in ks && at < |ks| && node == ks[at]
    modifies child`parent, child`prev, child`next, node`next
    modifies (if at + 1 < |ks| then {ks[at + 1]} else HeadOf(ks))`prev
    ensures Children(parent, Insert(ks, at + 1, child))
  {
    ghost var ls := Insert(ks, at + 1, child);
    assert Linked(parent, ks, at);
    var p := node.parent;
    child.parent := p;
    var next := node.next;
    if next != null {
      next.prev := child;
    } else {
      p.first.prev := child;
    }
    child.next := next;
    child.prev := node;
    node.next := child;
    forall i: nat | i < |ls| ensures Linked(parent, ls, i) {
      InsertPlaces(ks, at + 1, child, i);
      assert i <= at ==> old(Linked(parent, ks, i));
      assert i > at + 1 ==> old(Linked(parent, ks, i - 1));
    }
  }

  /** `insert_node_before`: `node` is child number `at`. */
  method InsertNodeBefore(child: Node, node: Node, ghost parent: Node, ghost ks: seq<Node>, ghost at: nat)
    requires Children(parent, ks) && child !in ks && at < |ks| && node == ks[at]
    modifies child`parent, child`prev, child`next, node`prev, parent`first
    modifies (if at > 0 then {ks[at - 1]} else {})`next
    ensures Children(parent, Insert(ks, at, child))
  {
    ghost var ls := Insert(ks, at, child);
    assert Linked(parent, ks, at);
    assert at > 0 ==> Linked(parent, ks, at - 1);
    assert at == 0 ==> Linked(parent, ks, |ks| - 1);
    var p := node.parent;
    child.parent := p;
    var prev := node.prev;
    if prev.next != null {
      prev.next := child;
    } else {
      p.first := child;
    }
    child.prev := prev;
    child.next := node;
    node.prev := child;
    forall i: nat | i < |ls| ensures Linked(parent, ls, i) {
      InsertPlaces(ks, at, child, i);
      assert i < at ==> old(Linked(parent, ks, i));
      assert i > at ==> old(Linked(parent, ks, i - 1));
    }
  }

  /** `remove_node`: `node` is child number `at`. */
  method RemoveNode(node: Node, ghost parent: Node, ghost ks: seq<Node>, ghost at: nat)
    requires Children(parent, ks) && at < |ks| && node == ks[at]
    modifies node`parent, node`prev, node`next, parent`first
    modifies (if at > 0 then {ks[at - 1]} else {})`next
    modifies (if at + 1 < |ks| then {ks[at + 1]} else HeadOf(ks))`prev
    ensures Children(parent, Remove(ks, at))
    ensures node.parent == null && node.prev == null && node.next == null
  {
    ghost var ls := Remove(ks, at);
    assert Linked(parent, ks, at) && Linked(parent, ks, |ks| - 1);
    assert at > 0 ==> Linked(parent, ks, at - 1);
    var p := node.parent;
    var next := node.next;
    var prev := node.prev;
    if next != null {
      next.prev := prev;
    } else {
      p.first.prev := prev;
    }
    if prev.next != null {
      prev.next := next;
    } else {
      p.first := next;
    }
    node.parent := null;
    node.prev := null;
    node.next := null;
    forall i: nat | i < |ls| ensures Linked(parent, ls, i) {
      RemovePlaces(ks, at, i);
      assert i < at ==> old(Linked(parent, ks, i));
      assert i >= at ==> old(Linked(parent, ks, i + 1));
    }
  }
}
