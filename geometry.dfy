/**
 * The grid cell of maze_solver/geometry.py: four wall flags turned into the
 * list of walled sides and the ordered list of open-neighbour offsets that
 * the searches walk. Corner points, lines and drawing are not modelled.
 */
module Geometry {
  import opened Wrappers

  /** A grid position or a relative offset, as a (row, column) pair. */
  type Pos = (int, int)

  datatype Side = Left | Right | Top | Bottom

  /** The sides in the order the constructor examines them. */
  const SideOrder: seq<Side> := [Left, Right, Top, Bottom]

  /** The offset that an opening on side `s` leads to. */
  function Dir(s: Side): Pos
  {
    match s
    case Left => (0, -1)
    case Right => (0, 1)
    case Top => (-1, 0)
    case Bottom => (1, 0)
  }

  /** Position of an offset in the order left, right, top, bottom; 4 for any other offset. */
  function Rank(d: Pos): nat
  {
    if d == (0, -1) then 0
    else if d == (0, 1) then 1
    else if d == (-1, 0) then 2
    else if d == (1, 0) then 3
    else 4
  }

  function Abs(x: int): nat
  {
    if x < 0 then -x else x
  }

  /** A move to one of the four orthogonal neighbours. */
  predicate IsUnitStep(d: Pos)
  {
    Abs(d.0) + Abs(d.1) == 1
  }

  /** The keyword flags of a Cell: `Some(true)` is a wall, `Some(false)` an opening, `None` a flag not given. */
  datatype Kwargs = Kwargs(left: Option<bool>, right: Option<bool>, top: Option<bool>, bottom: Option<bool>)

  /** Whether side `s` is walled; a flag that is not given means a wall. */
  function Walled(k: Kwargs, s: Side): bool
  {
    match s
    case Left => k.left.GetOr(true)
    case Right => k.right.GetOr(true)
    case Top => k.top.GetOr(true)
    case Bottom => k.bottom.GetOr(true)
  }

  /**
   * A cell as the searches and the renderer see it: the sides that carry a
   * wall line, in the order they were added, and the open offsets.
   */
  datatype Cell = Cell(walls: seq<Side>, connections: seq<Pos>)

  /** What one side contributes to the walls: itself when walled. */
  function WallOf(k: Kwargs, s: Side): seq<Side>
  {
    if Walled(k, s) then [s] else []
  }

  /** What one side contributes to the connections: its offset when open. */
  function OpenOf(k: Kwargs, s: Side): seq<Pos>
  {
    if Walled(k, s) then [] else [Dir(s)]
  }

  /** Reference definition: the walled sides among `sides`, in order. */
  function WalledSides(k: Kwargs, sides: seq<Side>): seq<Side>
  {
    if sides == [] then [] else WallOf(k, sides[0]) + WalledSides(k, sides[1..])
  }

  /** Reference definition: the offsets of the open sides among `sides`, in order. */
  function OpenOffsets(k: Kwargs, sides: seq<Side>): seq<Pos>
  {
    if sides == [] then [] else OpenOf(k, sides[0]) + OpenOffsets(k, sides[1..])
  }

  /** What every constructed cell satisfies: a side is walled exactly when its offset is not open, and every open offset is one of the four directions. */
  predicate Consistent(c: Cell)
  {
    (forall s: Side :: s in c.walls <==> Dir(s) !in c.connections) &&
    (forall d :: d in c.connections ==> Rank(d) < 4)
  }

  /**
   * Cell.__init__: each side, in the order left, right, top, bottom, adds
   * either a wall or its offset to `connections`.
   */
  method NewCell(k: Kwargs) returns (cell: Cell)
    ensures cell.walls == WalledSides(k, SideOrder)
    ensures cell.connections == OpenOffsets(k, SideOrder)
    ensures forall s: Side :: s in cell.walls <==> Walled(k, s)
    ensures forall s: Side :: Dir(s) in cell.connections <==> !Walled(k, s)
    ensures |cell.walls| + |cell.connections| == 4
    ensures Consistent(cell)
  {
    var connections: seq<Pos> := [];
    var walls: seq<Side> := [];
    if Walled(k, Left) {
      walls := walls + [Left];
    } else {
      connections := connections + [Dir(Left)];
    }
    assert walls == WallOf(k, Left) && connections == OpenOf(k, Left);
    if Walled(k, Right) {
      walls := walls + [Right];
    } else {
      connections := connections + [Dir(Right)];
    }
    assert walls == WallOf(k, Left) + WallOf(k, Right);
    assert connections == OpenOf(k, Left) + OpenOf(k, Right);
    if Walled(k, Top) {
      walls := walls + [Top];
    } else {
      connections := connections + [Dir(Top)];
    }
    assert walls == WallOf(k, Left) + WallOf(k, Right) + WallOf(k, Top);
    assert connections == OpenOf(k, Left) + OpenOf(k, Right) + OpenOf(k, Top);
    if Walled(k, Bottom) {
      walls := walls + [Bottom];
    } else {
      connections := connections + [Dir(Bottom)];
    }
    assert walls == WallOf(k, Left) + WallOf(k, Right) + WallOf(k, Top) + WallOf(k, Bottom);
    assert connections == OpenOf(k, Left) + OpenOf(k, Right) + OpenOf(k, Top) + OpenOf(k, Bottom);
    cell := Cell(walls, connections);
    UnfoldSideOrder(k);
    WalledSidesExact(k);
    OpenOffsetsExact(k);
    OpenOffsetsUnit(k);
    SidesPartition(k, SideOrder);
  }

  /** The filters over the fixed side order, written out side by side. */
  lemma UnfoldSideOrder(k: Kwargs)
    ensures WalledSides(k, SideOrder) == WallOf(k, Left) + WallOf(k, Right) + WallOf(k, Top) + WallOf(k, Bottom)
    ensures OpenOffsets(k, SideOrder) == OpenOf(k, Left) + OpenOf(k, Right) + OpenOf(k, Top) + OpenOf(k, Bottom)
  {
    var s3, s2, s1 := [Right, Top, Bottom], [Top, Bottom], [Bottom];
    assert SideOrder[1..] == s3 && s3[1..] == s2 && s2[1..] == s1 && s1[1..] == [];
    assert WalledSides(k, s1) == WallOf(k, Bottom);
    assert WalledSides(k, s2) == WallOf(k, Top) + WallOf(k, Bottom);
    assert WalledSides(k, s3) == WallOf(k, Right) + (WallOf(k, Top) + WallOf(k, Bottom));
    assert OpenOffsets(k, s1) == OpenOf(k, Bottom);
    assert OpenOffsets(k, s2) == OpenOf(k, Top) + OpenOf(k, Bottom);
    assert OpenOffsets(k, s3) == OpenOf(k, Right) + (OpenOf(k, Top) + OpenOf(k, Bottom));
  }

  /** A side is among the walls exactly when its flag says wall. */
  lemma WalledSidesExact(k: Kwargs)
    ensures forall s: Side :: s in WalledSides(k, SideOrder) <==> Walled(k, s)
  {
    UnfoldSideOrder(k);
    var wl, wr, wt, wb := WallOf(k, Left), WallOf(k, Right), WallOf(k, Top), WallOf(k, Bottom);
    forall s: Side
      ensures s in WalledSides(k, SideOrder) <==> Walled(k, s)
    {
      assert s in wl + wr + wt + wb <==> s in wl || s in wr || s in wt || s in wb;
    }
  }

  /** A side's offset is among the connections exactly when its flag says open. */
  lemma OpenOffsetsExact(k: Kwargs)
    ensures forall s: Side :: Dir(s) in OpenOffsets(k, SideOrder) <==> !Walled(k, s)
  {
    UnfoldSideOrder(k);
    var ol, or, ot, ob := OpenOf(k, Left), OpenOf(k, Right), OpenOf(k, Top), OpenOf(k, Bottom);
    forall s: Side
      ensures Dir(s) in OpenOffsets(k, SideOrder) <==> !Walled(k, s)
    {
      var d := Dir(s);
      assert d in ol + or + ot + ob <==> d in ol || d in or || d in ot || d in ob;
    }
  }

  /** Every connection is one of the four unit offsets. */
  lemma OpenOffsetsUnit(k: Kwargs)
    ensures forall d :: d in OpenOffsets(k, SideOrder) ==> Rank(d) < 4 && IsUnitStep(d)
  {
    UnfoldSideOrder(k);
    var ol, or, ot, ob := OpenOf(k, Left), OpenOf(k, Right), OpenOf(k, Top), OpenOf(k, Bottom);
    forall d | d in OpenOffsets(k, SideOrder)
      ensures Rank(d) < 4 && IsUnitStep(d)
    {
      assert d in ol + or + ot + ob;
      if d in ol {
        assert d == (0, -1);
      } else if d in or {
        assert d == (0, 1);
      } else if d in ot {
        assert d == (-1, 0);
      } else {
        assert d in ob && d == (1, 0);
      }
    }
  }

  /** Every side adds exactly one entry, to the walls or to the connections. */
  lemma {:induction false} SidesPartition(k: Kwargs, sides: seq<Side>)
    ensures |WalledSides(k, sides)| + |OpenOffsets(k, sides)| == |sides|
  {
    if sides != [] {
      SidesPartition(k, sides[1..]);
    }
  }

  /** The open offsets keep the order of `sides`: ranks strictly increase, so there are no duplicates. */
  lemma {:induction false} OpenOffsetsOrdered(k: Kwargs, sides: seq<Side>)
    requires forall i, j :: 0 <= i < j < |sides| ==> Rank(Dir(sides[i])) < Rank(Dir(sides[j]))
    ensures forall i, j :: 0 <= i < j < |OpenOffsets(k, sides)| ==>
              Rank(OpenOffsets(k, sides)[i]) < Rank(OpenOffsets(k, sides)[j])
    ensures |OpenOffsets(k, sides)| <= |sides|
  {
    if sides != [] {
      var rest := OpenOffsets(k, sides[1..]);
      OpenOffsetsOrdered(k, sides[1..]);
      OpenOffsetsFrom(k, sides[1..]);
      assert forall d :: d in rest ==> Rank(Dir(sides[0])) < Rank(d);
    }
  }

  /** Every offset produced from `sides` is the direction of one of them. */
  lemma {:induction false} OpenOffsetsFrom(k: Kwargs, sides: seq<Side>)
    ensures forall d :: d in OpenOffsets(k, sides) ==> exists i :: 0 <= i < |sides| && d == Dir(sides[i])
  {
    if sides != [] {
      OpenOffsetsFrom(k, sides[1..]);
      forall d | d in OpenOffsets(k, sides)
        ensures exists i :: 0 <= i < |sides| && d == Dir(sides[i])
      {
        if d in OpenOffsets(k, sides[1..]) {
          var i :| 0 <= i < |sides[1..]| && d == Dir(sides[1..][i]);
          assert d == Dir(sides[i + 1]);
        } else {
          assert d == Dir(sides[0]);
        }
      }
    }
  }

  /** The connections of a cell list the open sides left, right, top, bottom, each at most once, at most four. */
  lemma ConnectionsInSideOrder(k: Kwargs)
    ensures forall i, j :: 0 <= i < j < |OpenOffsets(k, SideOrder)| ==>
              Rank(OpenOffsets(k, SideOrder)[i]) < Rank(OpenOffsets(k, SideOrder)[j])
    ensures |OpenOffsets(k, SideOrder)| <= 4
  {
    OpenOffsetsOrdered(k, SideOrder);
  }

  /** A cell built without flags is walled on every side and has no connections. */
  lemma NoFlagsNoConnections()
    ensures OpenOffsets(Kwargs(None, None, None, None), SideOrder) == []
    ensures WalledSides(Kwargs(None, None, None, None), SideOrder) == SideOrder
  {
    var k := Kwargs(None, None, None, None);
    assert forall s: Side :: Walled(k, s);
  }
}
