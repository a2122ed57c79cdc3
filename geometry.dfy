/**
  * The value types of `pyboof/geo.py`: `Point2D` and `Quadrilateral2D`,
  * mutable records whose `set` methods copy coordinates in place and whose
  * accessors return tuples. Coordinates are opaque doubles.
  */
module Geometry {
  import opened Outcomes
  import opened Wire

  class Point2D {
    var x: Double
    var y: Double

    constructor (x0: Double, y0: Double)
      ensures x == x0 && y == y0
    {
      x := x0;
      y := y0;
    }

    /** Point2D() with its default arguments x=0, y=0. */
    constructor Origin()
      ensures x == 0 && y == 0
    {
      x := 0;
      y := 0;
    }

    /** get_tuple: (x, y). */
    function GetTuple(): (r: PointTuple)
      reads this
      ensures r.0 == GetX() && r.1 == GetY()
    {
      (x, y)
    }

    function GetX(): Double
      reads this
    {
      x
    }

    function GetY(): Double
      reads this
    {
      y
    }

    /** set_x: only x changes. */
    method SetX(v: Double)
      modifies this
      ensures GetTuple() == (v, old(GetY()))
      ensures GetX() == v && GetY() == old(GetY())
    {
      x := v;
    }

    /** set_y: only y changes. */
    method SetY(v: Double)
      modifies this
      ensures GetTuple() == (old(GetX()), v)
      ensures GetX() == old(GetX()) && GetY() == v
    {
      y := v;
    }

    /**
      * set(o) as written: the Point2D test is a separate `if`, so after
      * copying a point the call goes on to the tuple test and the foreign
      * type check, and raises. A tuple is indexed at 0 and then at 1, so a
      * tuple of one element assigns x before it raises.
      */
    method SetAsWritten(o: SetArg) returns (r: Outcome)
      modifies this
      ensures match o
        case FromPoint(p) =>
          r == Failure(UnknownObjectType) && GetTuple() == old(p.GetTuple())
        case FromTuple(t) =>
          if |t| == 0 then r == Failure(IndexError) && GetTuple() == old(GetTuple())
          else if |t| == 1 then r == Failure(IndexError) && GetTuple() == (t[0], old(y))
          else r == Success && GetTuple() == (t[0], t[1])
        case Unrecognized =>
          r == Failure(UnknownObjectType) && GetTuple() == old(GetTuple())
    {
      if o.FromPoint? {
        var px, py := o.p.x, o.p.y;
        x := px;
        y := py;
      }
      if o.FromTuple? {
        if |o.t| == 0 {
          return Failure(IndexError);
        }
        x := o.t[0];
        if |o.t| == 1 {
          return Failure(IndexError);
        }
        y := o.t[1];
        return Success;
      }
      // jg.is_instance_of(gateway, o, Point2D_F64) does not hold for a Python object
      return Failure(UnknownObjectType);
    }

    /** set(o) with the Point2D case joined to the chain: copying a point succeeds. */
    method Set(o: SetArg) returns (r: Outcome)
      modifies this
      ensures match o
        case FromPoint(p) =>
          r == Success && GetTuple() == old(p.GetTuple())
        case FromTuple(t) =>
          if |t| == 0 then r == Failure(IndexError) && GetTuple() == old(GetTuple())
          else if |t| == 1 then r == Failure(IndexError) && GetTuple() == (t[0], old(y))
          else r == Success && GetTuple() == (t[0], t[1])
        case Unrecognized =>
          r == Failure(UnknownObjectType) && GetTuple() == old(GetTuple())
    {
      match o
      case FromPoint(p) =>
        var px, py := p.x, p.y;
        x := px;
        y := py;
        return Success;
      case FromTuple(t) =>
        if |t| == 0 {
          return Failure(IndexError);
        }
        x := t[0];
        if |t| == 1 {
          return Failure(IndexError);
        }
        y := t[1];
        return Success;
      case Unrecognized =>
        return Failure(UnknownObjectType);
    }
  }

  /**
    * What `Point2D.set` is given: another Point2D, a tuple of coordinates,
    * or an object of any other Python type.
    */
  datatype SetArg = FromPoint(p: Point2D) | FromTuple(t: seq<Double>) | Unrecognized

  /** Copying one point into another with `set` as written raises, after the copy. */
  method SetFromPointRaises() returns (r: Outcome, copied: PointTuple)
    ensures r == Failure(UnknownObjectType) && copied == (1, 2)
  {
    var target := new Point2D(0, 0);
    var source := new Point2D(1, 2);
    r := target.SetAsWritten(FromPoint(source));
    copied := target.GetTuple();
  }

  type QuadTuple = (PointTuple, PointTuple, PointTuple, PointTuple)

  class Quadrilateral2D {
    var a: Point2D
    var b: Point2D
    var c: Point2D
    var d: Point2D

    /** The vertexes are stored as given, not copied. */
    constructor (a0: Point2D, b0: Point2D, c0: Point2D, d0: Point2D)
      ensures a == a0 && b == b0 && c == c0 && d == d0
    {
      a, b, c, d := a0, b0, c0, d0;
    }

    /** get_vertexes: the four vertex objects (a, b, c, d). */
    function GetVertexes(): (r: (Point2D, Point2D, Point2D, Point2D))
      reads this
      ensures r == (GetA(), GetB(), GetC(), GetD())
    {
      (a, b, c, d)
    }

    function GetA(): Point2D
      reads this
    {
      a
    }

    function GetB(): Point2D
      reads this
    {
      b
    }

    function GetC(): Point2D
      reads this
    {
      c
    }

    function GetD(): Point2D
      reads this
    {
      d
    }

    /** get_tuple_tuple: the vertexes' coordinate tuples, in a, b, c, d order. */
    function GetTupleTuple(): (r: QuadTuple)
      reads this, a, b, c, d
      ensures r.0 == GetA().GetTuple() && r.1 == GetB().GetTuple()
      ensures r.2 == GetC().GetTuple() && r.3 == GetD().GetTuple()
    {
      var (va, vb, vc, vd) := GetVertexes();
      (va.GetTuple(), vb.GetTuple(), vc.GetTuple(), vd.GetTuple())
    }

    /**
      * `set` copies vertex by vertex, a first. It reproduces `o` exactly
      * when the four vertexes of this quadrilateral are distinct objects
      * and none of them is a vertex of `o` that is still to be read.
      */
    ghost predicate CopiesCleanly(o: Quadrilateral2D)
      reads this, o
    {
      a != b && a != c && a != d && b != c && b != d && c != d &&
      a != o.b && a != o.c && a != o.d && b != o.c && b != o.d && c != o.d
    }

    /** set(o) for another Quadrilateral2D, with the corrected Point2D.set. */
    method Set(o: QuadArg) returns (r: Outcome)
      modifies a, b, c, d
      ensures o.Unknown? ==> r == Failure(UnknownObjectType)
      ensures o.FromQuad? ==> r == Success
      ensures o.FromQuad? && old(CopiesCleanly(o.q)) ==> GetTupleTuple() == old(o.q.GetTupleTuple())
    {
      if o.Unknown? {
        return Failure(UnknownObjectType);
      }
      var q := o.q;
      var _ := a.Set(FromPoint(q.a));
      var _ := b.Set(FromPoint(q.b));
      var _ := c.Set(FromPoint(q.c));
      var _ := d.Set(FromPoint(q.d));
      return Success;
    }

    /**
      * set(o) as written: `self.a.set(o.a)` raises after copying the first
      * vertex, so the other three are left as they were.
      */
    method SetAsWritten(o: QuadArg) returns (r: Outcome)
      modifies a
      ensures r == Failure(UnknownObjectType)
      ensures o.FromQuad? ==> a.GetTuple() == old(o.q.a.GetTuple())
    {
      if o.Unknown? {
        return Failure(UnknownObjectType);
      }
      r := a.SetAsWritten(FromPoint(o.q.a));
    }
  }

  /** What `Quadrilateral2D.set` is given: another Quadrilateral2D, or anything else. */
  datatype QuadArg = FromQuad(q: Quadrilateral2D) | Unknown
}
