/** The tile grid of grid.h and its builders in grid.cpp. */
module Grids {
  import opened GeoMath

  /** A tile: whether actors may stand on it and the glyph drawn for it. */
  datatype Tile = Tile(walkable: bool, glyph: char)

  /** A default Tile: not walkable, drawn as a space. */
  const DefaultTile: Tile := Tile(false, ' ')

  class Grid {
    var data: map<IVec2, Tile>
    /** The tile handed out for positions the grid does not hold. */
    var dummy: Tile

    constructor ()
      ensures data == map[] && dummy == DefaultTile
    {
      data := map[];
      dummy := DefaultTile;
    }

    function Has(pos: IVec2): (b: bool)
      reads this
      ensures b <==> pos in data
    {
      pos in data
    }

    /** get(pos): the tile and true for a held position, else the dummy
        tile and false. */
    function Get(pos: IVec2): (r: (Tile, bool))
      reads this
      ensures r.1 <==> pos in data
      ensures r.1 ==> r.0 == data[pos]
      ensures !r.1 ==> r.0 == dummy
    {
      if pos in data then (data[pos], true) else (dummy, false)
    }

    /** operator[]: emplaces the dummy tile for a missing position and keeps
        an existing one; returns the tile now held there. */
    method Index(pos: IVec2) returns (t: Tile)
      modifies this
      ensures pos in old(data) ==> data == old(data) && t == data[pos]
      ensures pos !in old(data) ==> data == old(data)[pos := dummy] && t == dummy
      ensures dummy == old(dummy)
    {
      if pos !in data {
        data := data[pos := dummy];
      }
      t := data[pos];
    }

    /** `grid[pos] = tile`: operator[] then an assignment through the
        reference. */
    method Assign(pos: IVec2, tile: Tile)
      modifies this
      ensures data == old(data)[pos := tile] && dummy == old(dummy)
    {
      var _ := Index(pos);
      data := data[pos := tile];
    }
  }

  // ---------------------------------------------------------------------
  // grid_from_string

  function CountNewlines(s: string): nat {
    if |s| == 0 then 0 else CountNewlines(s[..|s| - 1]) + (if s[|s| - 1] == '\n' then 1 else 0)
  }

  /** The cursor after reading `s` from (0, top): a newline goes back to
      x = 0 one row down, any other character one column right. */
  function CursorAfter(s: string, top: int): IVec2 {
    if |s| == 0 then IVec2(0, top)
    else
      var p := CursorAfter(s[..|s| - 1], top);
      if s[|s| - 1] == '\n' then IVec2(0, p.y - 1) else IVec2(p.x + 1, p.y)
  }

  /** The tiles placed while reading `s`. */
  function TilesOf(s: string, types: map<char, Tile>, top: int): map<IVec2, Tile> {
    if |s| == 0 then map[]
    else
      var prefix := s[..|s| - 1];
      var c := s[|s| - 1];
      if c != '\n' && c in types then TilesOf(prefix, types, top)[CursorAfter(prefix, top) := types[c]]
      else TilesOf(prefix, types, top)
  }

  /** The row of a cursor is the top minus the newlines read; on its row it
      is one column per character since the last newline. */
  lemma {:induction false} CursorRow(s: string, top: int)
    ensures CursorAfter(s, top).y == top - CountNewlines(s)
    ensures CursorAfter(s, top).x >= 0
  {
    if |s| > 0 {
      CursorRow(s[..|s| - 1], top);
    }
  }

  /** Reading further never moves the cursor up, and on the same row it
      has moved one column per character. */
  lemma {:induction false} CursorMonotone(s: string, i: nat, j: nat, top: int)
    requires i <= j <= |s|
    ensures CursorAfter(s[..j], top).y <= CursorAfter(s[..i], top).y
    ensures CursorAfter(s[..j], top).y == CursorAfter(s[..i], top).y ==>
      CursorAfter(s[..j], top).x == CursorAfter(s[..i], top).x + (j - i)
    decreases j - i
  {
    if i < j {
      CursorMonotone(s, i, j - 1, top);
      assert s[..j][..j - 1] == s[..j - 1];
      CursorRow(s[..j - 1], top);
    }
  }

  /** Different characters that are not newlines land on different cells. */
  lemma CursorInjective(s: string, i: nat, j: nat, top: int)
    requires i < j < |s| && s[i] != '\n'
    ensures CursorAfter(s[..i], top) != CursorAfter(s[..j], top)
  {
    CursorMonotone(s, i + 1, j, top);
    assert s[..i + 1][..i] == s[..i];
    CursorRow(s[..i], top);
  }

  /** A cell gets a tile exactly when some mapped character lands on it,
      and the tile is that character's. */
  lemma {:induction false} TilesOfMeaning(s: string, types: map<char, Tile>, top: int, p: IVec2)
    ensures p in TilesOf(s, types, top) <==>
      exists i :: 0 <= i < |s| && s[i] != '\n' && s[i] in types && CursorAfter(s[..i], top) == p
    ensures forall i :: 0 <= i < |s| && s[i] != '\n' && s[i] in types && CursorAfter(s[..i], top) == p ==>
      p in TilesOf(s, types, top) && TilesOf(s, types, top)[p] == types[s[i]]
  {
    if |s| > 0 {
      var prefix := s[..|s| - 1];
      TilesOfMeaning(prefix, types, top, p);
      forall i | 0 <= i < |prefix| ensures prefix[..i] == s[..i] && prefix[i] == s[i] {
      }
      assert s[..|s| - 1] == prefix;
      forall i | 0 <= i < |prefix| && s[i] != '\n' && s[i] in types && CursorAfter(s[..i], top) == p
        ensures p in TilesOf(s, types, top) && TilesOf(s, types, top)[p] == types[s[i]]
      {
        var c := s[|s| - 1];
        if c != '\n' && c in types {
          CursorInjective(s, i, |s| - 1, top);
        }
      }
    }
  }

  /** grid_from_string: the first line is at y = number of newlines. */
  method GridFromString(s: string, types: map<char, Tile>) returns (g: Grid)
    ensures fresh(g) && g.dummy == DefaultTile
    ensures g.data == TilesOf(s, types, CountNewlines(s))
  {
    var top := CountNewlines(s);
    var pos := IVec2(0, top);
    g := new Grid();
    for i := 0 to |s|
      invariant pos == CursorAfter(s[..i], top)
      invariant g.data == TilesOf(s[..i], types, top) && g.dummy == DefaultTile
    {
      assert s[..i + 1][..i] == s[..i];
      var c := s[i];
      if c == '\n' {
        pos := IVec2(0, pos.y - 1);
        continue;
      }
      if c in types {
        g.Assign(pos, types[c]);
      }
      pos := IVec2(pos.x + 1, pos.y);
    }
    assert s[..|s|] == s;
  }

  /** The last row read is row 0. */
  lemma GridBottomRow(s: string)
    ensures CursorAfter(s, CountNewlines(s)).y == 0
  {
    CursorRow(s, CountNewlines(s));
  }

  // ---------------------------------------------------------------------
  // arena_grid

  predicate OnEdge(p: IVec2, dims: IVec2) {
    p.x == 0 || p.x == dims.x - 1 || p.y == 0 || p.y == dims.y - 1
  }

  predicate InArena(p: IVec2, dims: IVec2) {
    0 <= p.x < dims.x && 0 <= p.y < dims.y
  }

  /** Cells filled before column x, plus column x below row y. */
  predicate Filled(p: IVec2, dims: IVec2, x: int, y: int) {
    (0 <= p.x < x && 0 <= p.y < dims.y) || (p.x == x && 0 <= p.y < y)
  }

  /** arena_grid: every cell of the rectangle, walls on its border and
      floor inside, and nothing else. */
  method ArenaGrid(dims: IVec2, wall: Tile, floor: Tile) returns (g: Grid)
    ensures fresh(g)
    ensures forall p :: p in g.data <==> InArena(p, dims)
    ensures forall p :: p in g.data ==> g.data[p] == if OnEdge(p, dims) then wall else floor
  {
    g := new Grid();
    var x := 0;
    while x < dims.x
      invariant 0 <= x || dims.x <= 0
      invariant x <= dims.x || x == 0
      invariant forall p :: p in g.data <==> Filled(p, dims, x, 0)
      invariant forall p :: p in g.data ==> g.data[p] == if OnEdge(p, dims) then wall else floor
      decreases dims.x - x
    {
      var y := 0;
      while y < dims.y
        invariant 0 <= y || dims.y <= 0
        invariant y <= dims.y || y == 0
        invariant forall p :: p in g.data <==> Filled(p, dims, x, y)
        invariant forall p :: p in g.data ==> g.data[p] == if OnEdge(p, dims) then wall else floor
        decreases dims.y - y
      {
        var onEdge := x == 0 || x == dims.x - 1 || y == 0 || y == dims.y - 1;
        g.Assign(IVec2(x, y), if onEdge then wall else floor);
        y := y + 1;
      }
      x := x + 1;
    }
  }

  /** The cells of a w-by-h rectangle. */
  function RectCells(w: nat, h: nat): set<IVec2> {
    if w == 0 then {} else RectCells(w - 1, h) + ColumnCells(w - 1, h)
  }

  function ColumnCells(x: int, h: nat): set<IVec2> {
    if h == 0 then {} else ColumnCells(x, h - 1) + {IVec2(x, h - 1)}
  }

  lemma {:induction false} ColumnCellsMembers(x: int, h: nat, p: IVec2)
    ensures p in ColumnCells(x, h) <==> p.x == x && 0 <= p.y < h
  {
    if h > 0 {
      ColumnCellsMembers(x, h - 1, p);
    }
  }

  /** The rectangle is exactly the cells of the arena of that size. */
  lemma {:induction false} RectCellsMembers(w: nat, h: nat, p: IVec2)
    ensures p in RectCells(w, h) <==> InArena(p, IVec2(w, h))
  {
    if w > 0 {
      RectCellsMembers(w - 1, h, p);
      ColumnCellsMembers(w - 1, h, p);
    }
  }

  lemma {:induction false} ColumnSize(x: int, h: nat)
    ensures |ColumnCells(x, h)| == h
  {
    if h > 0 {
      ColumnSize(x, h - 1);
      ColumnCellsMembers(x, h - 1, IVec2(x, h - 1));
    }
  }

  /** The rectangle holds w * h cells, so the arena has that many tiles. */
  lemma {:induction false} RectSize(w: nat, h: nat)
    ensures |RectCells(w, h)| == w * h
  {
    if w > 0 {
      var rest, column := RectCells(w - 1, h), ColumnCells(w - 1, h);
      RectSize(w - 1, h);
      ColumnSize(w - 1, h);
      forall p | p in column ensures p !in rest {
        ColumnCellsMembers(w - 1, h, p);
        RectCellsMembers(w - 1, h, p);
      }
      assert rest !! column;
      MulStep(w, h);
    }
  }

  /** A map holding exactly the arena's cells has dims.x * dims.y entries. */
  lemma ArenaTileCount(data: map<IVec2, Tile>, dims: IVec2)
    requires dims.x >= 0 && dims.y >= 0
    requires forall p :: p in data <==> InArena(p, dims)
    ensures |data| == dims.x * dims.y
  {
    forall p ensures p in data.Keys <==> p in RectCells(dims.x, dims.y) {
      RectCellsMembers(dims.x, dims.y, p);
    }
    assert data.Keys == RectCells(dims.x, dims.y);
    RectSize(dims.x, dims.y);
  }

  lemma MulStep(w: nat, h: nat)
    requires w > 0
    ensures (w - 1) * h + h == w * h
  {
  }

  // ---------------------------------------------------------------------
  // adjacent_steps / adjacent_positions

  /** The four orthogonal steps, in the order +x, +y, -x, -y. */
  function AdjacentSteps(): (r: seq<IVec2>)
    ensures |r| == 4
    ensures forall i :: 0 <= i < 4 ==> ManhDist(r[i], IVec2(0, 0)) == 1
  {
    [IVec2(1, 0), IVec2(0, 1), IVec2(-1, 0), IVec2(0, -1)]
  }

  /** The positions one step from p; Manhattan distance 1 means exactly
      these. */
  function Neighbours(p: IVec2): (r: seq<IVec2>)
    ensures |r| == 4
    ensures forall i :: 0 <= i < 4 ==> ManhDist(p, r[i]) == 1
  {
    [IVec2(p.x + 1, p.y), IVec2(p.x, p.y + 1), IVec2(p.x - 1, p.y), IVec2(p.x, p.y - 1)]
  }

  /** The four neighbours are exactly the tiles at Manhattan distance 1. */
  lemma NeighboursExact(p: IVec2)
    ensures forall q :: ManhDist(p, q) == 1 <==> q in Neighbours(p)
  {
    var r := Neighbours(p);
    forall q | ManhDist(p, q) == 1 ensures q in r {
      if q.x == p.x + 1 { assert q == r[0]; }
      else if q.x == p.x - 1 { assert q == r[2]; }
      else if q.y == p.y + 1 { assert q == r[1]; }
      else { assert q == r[3]; }
    }
  }

  /** adjacent_positions: each step moved by p, in place. */
  method AdjacentPositions(p: IVec2) returns (adj: seq<IVec2>)
    ensures adj == Neighbours(p)
  {
    adj := AdjacentSteps();
    for i := 0 to 4
      invariant |adj| == 4
      invariant forall k :: 0 <= k < i ==> adj[k] == AdjacentSteps()[k].Plus(p)
      invariant forall k :: i <= k < 4 ==> adj[k] == AdjacentSteps()[k]
    {
      adj := adj[i := adj[i].Plus(p)];
    }
  }
}
