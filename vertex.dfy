/** A vertex wraps a payload and carries the scratch fields that the
    breadth-first search of a graph writes: a hop distance and a parent. */
module Vertices {

  /** Java's 32-bit `int`, the type of the distance field. */
  newtype int32 = x: int | -0x8000_0000 <= x < 0x8000_0000

  /** What `equals(Object)` may be handed: null, a vertex, or an object of
      some other class. */
  datatype Argument<T> = Null | AVertex(v: Vertex<T>) | NotAVertex

  class Vertex<T(==)> {
    const payload: T
    var distance: int32
    var parentVertex: Vertex?<T>

    /** Stores the payload; the other two fields keep Java's defaults. */
    constructor (payload: T)
      ensures this.payload == payload
      ensures distance == 0 && parentVertex == null
    {
      this.payload := payload;
      // Java leaves these at the field defaults, 0 and null
      distance := 0;
      parentVertex := null;
    }

    /** Value equality: two vertices are equal exactly when their payloads are. */
    function Equals(other: Argument<T>): (r: bool)
      ensures other.Null? ==> !r
      ensures other == AVertex(this) ==> r
      ensures other.NotAVertex? ==> !r
      ensures other.AVertex? ==> (r <==> other.v.payload == payload)
    {
      match other
      case Null => false
      case NotAVertex => false
      case AVertex(that) => that == this || that.payload == payload
    }

    /** The same hash for every vertex. */
    function HashCode(): (h: int)
      ensures h == 1
    {
      1
    }

    /** The distance last set, 0 until then. */
    function GetDistance(): (r: int32)
      reads this
      ensures r == distance
    {
      distance
    }

    /** The parent last set, null until then. */
    function GetParentVertex(): (r: Vertex?<T>)
      reads this
      ensures r == parentVertex
    {
      parentVertex
    }

    method SetDistance(d: int32)
      modifies this
      ensures GetDistance() == d
      ensures GetParentVertex() == old(GetParentVertex())
    {
      distance := d;
    }

    method SetParentVertex(pv: Vertex?<T>)
      modifies this
      ensures GetParentVertex() == pv
      ensures GetDistance() == old(GetDistance())
    {
      parentVertex := pv;
    }
  }

  /** `equals` is an equivalence relation on vertices. */
  lemma EqualsIsEquivalence<T>(a: Vertex<T>, b: Vertex<T>, c: Vertex<T>)
    ensures a.Equals(AVertex(a))
    ensures a.Equals(AVertex(b)) ==> b.Equals(AVertex(a))
    ensures a.Equals(AVertex(b)) && b.Equals(AVertex(c)) ==> a.Equals(AVertex(c))
  {
  }

  /** Equal vertices have equal hashes (trivially, since every hash is 1). */
  lemma HashCodeAgreesWithEquals<T>(a: Vertex<T>, b: Vertex<T>)
    ensures a.HashCode() == 1
    ensures a.Equals(AVertex(b)) ==> a.HashCode() == b.HashCode()
  {
  }
}
