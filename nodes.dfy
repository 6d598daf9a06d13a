// src/node.py: a node object identified by its id; equality and hashing look
// at the id alone, and `update_position` is its one mutator.
module Nodes {
  import opened Common
  import Text

  /** A screen position `(x, y)`, owned by the presentation layer. */
  type Position = (real, real)

  /** CPython's `hash()` of an int: the value modulo 2**61 - 1 with the sign
      kept, and -1 reserved (it becomes -2). */
  function IdHash(i: Id): (r: int)
    ensures -0x1FFF_FFFF_FFFF_FFFF < r < 0x1FFF_FFFF_FFFF_FFFF && r != -1
    ensures -0x1FFF_FFFF_FFFF_FFFF < i < 0x1FFF_FFFF_FFFF_FFFF && i != -1 ==> r == i
    ensures i == -1 ==> r == -2
  {
    var modulus := 0x1FFF_FFFF_FFFF_FFFF;
    var h := if i >= 0 then i % modulus else -((-i) % modulus);
    if h == -1 then -2 else h
  }

  class Node {
    const id: Id
    var data: Data
    var position: Option<Position>

    /** `Node(id, data=None)`: data defaults to `{}`, no position yet. */
    constructor (id: Id, data: Option<Data> := None)
      ensures this.id == id && this.data == DataOrEmpty(data) && position == None
    {
      this.id := id;
      this.data := DataOrEmpty(data);
      position := None;
    }

    /** `__eq__` against another node: by id only. */
    predicate Equals(other: Node)
      ensures Equals(other) ==> Hash() == other.Hash()
      ensures Equals(other) <==> EqualsValue(other.id)
    {
      id == other.id
    }

    /** `__eq__` against a value that is not a node: the id is compared with it. */
    predicate EqualsValue(v: Id)
      ensures EqualsValue(v) ==> Hash() == IdHash(v)
    {
      id == v
    }

    /** `__hash__`: the hash of the id. */
    function Hash(): (r: int)
      ensures r != -1
      ensures 0 <= id < 0x1FFF_FFFF_FFFF_FFFF ==> r == id
    {
      IdHash(id)
    }

    /** `__str__`: `str(id)`. */
    function ToString(): (s: string)
      ensures |s| >= 1 && (s[0] == '-' <==> id < 0)
      ensures forall k :: 0 <= k < |s| ==> Text.IsDigit(s[k]) || (k == 0 && s[k] == '-')
      ensures Text.ParseInt(s) == id
    {
      Text.IntRoundTrip(id);
      Text.IntToString(id)
    }

    /** `update_position(x, y)`. */
    method UpdatePosition(x: real, y: real)
      modifies this`position
      ensures position == Some((x, y))
      ensures data == old(data)
    {
      position := Some((x, y));
    }
  }

  /** Node equality is an equivalence that ignores data and position. */
  lemma EqualsIsEquivalence(a: Node, b: Node, c: Node)
    ensures a.Equals(a)
    ensures a.Equals(b) ==> b.Equals(a)
    ensures a.Equals(b) && b.Equals(c) ==> a.Equals(c)
    ensures a.Equals(b) <==> a.EqualsValue(b.id)
  {
  }

  /** Equal nodes hash alike, so nodes can key dicts and sets. */
  lemma EqualNodesHashAlike(a: Node, b: Node)
    ensures a.Equals(b) ==> a.Hash() == b.Hash()
  {
  }

  /** `str(node)` determines the id. */
  lemma ToStringDeterminesId(a: Node, b: Node)
    ensures a.ToString() == b.ToString() <==> a.Equals(b)
  {
    Text.IntRoundTrip(a.id);
    Text.IntRoundTrip(b.id);
  }
}
