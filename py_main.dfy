/** main.py: the tile map (TileGrid) with its running bounds, the parser
    from a text map, and the component bag of the prototype's Entity.
    The conversions and the surface registry of main.py are the ones of
    PyGraphics. */
module PyMain {
  import opened Wrappers
  import opened PyGraphics

  /** A kind of tile: walkable or not, its surface id and its description. */
  datatype TileType = TileType(walkable: bool, surfaceHandle: int, desc: string)

  /** The exception `has_tile(x, y)` raises. */
  datatype NameError = NameError(name: string)

  /** The four bounds are all None exactly when the grid is empty; otherwise
      every tile lies within them and each bound is reached by some tile. */
  ghost predicate Bounded(grid: map<Pos, TileType>, minX: Option<int>, maxX: Option<int>,
                          minY: Option<int>, maxY: Option<int>)
  {
    && (grid == map[] <==> minX.None?)
    && minX.None? == maxX.None? == minY.None? == maxY.None?
    && (minX.Some? ==>
         && (forall p :: p in grid ==>
               minX.value <= p.0 <= maxX.value && minY.value <= p.1 <= maxY.value)
         && (exists p :: p in grid && p.0 == minX.value)
         && (exists p :: p in grid && p.0 == maxX.value)
         && (exists p :: p in grid && p.1 == minY.value)
         && (exists p :: p in grid && p.1 == maxY.value))
  }

  /** `min(old, v)` where the old bound may still be None. */
  function Lower(b: Option<int>, v: int): (r: int)
    ensures r <= v && (b.Some? ==> r <= b.value)
    ensures r == v || (b.Some? && r == b.value)
  {
    if b.None? then v else if b.value < v then b.value else v
  }

  function Upper(b: Option<int>, v: int): (r: int)
    ensures v <= r && (b.Some? ==> b.value <= r)
    ensures r == v || (b.Some? && r == b.value)
  {
    if b.None? then v else if v < b.value then b.value else v
  }

  /** Setting a tile keeps the bounds exact. */
  lemma SetKeepsBounded(grid: map<Pos, TileType>, minX: Option<int>, maxX: Option<int>,
                        minY: Option<int>, maxY: Option<int>, x: int, y: int, t: TileType)
    requires Bounded(grid, minX, maxX, minY, maxY)
    ensures Bounded(grid[(x, y) := t], Some(Lower(minX, x)), Some(Upper(maxX, x)),
                    Some(Lower(minY, y)), Some(Upper(maxY, y)))
  {
    var g := grid[(x, y) := t];
    assert (x, y) in g;
    if minX.Some? {
      var p0 :| p0 in grid && p0.0 == minX.value;
      var p1 :| p1 in grid && p1.0 == maxX.value;
      var p2 :| p2 in grid && p2.1 == minY.value;
      var p3 :| p3 in grid && p3.1 == maxY.value;
      assert p0 in g && p1 in g && p2 in g && p3 in g;
    }
  }

  class TileGrid {
    var tileTypes: map<char, TileType>
    var grid: map<Pos, TileType>
    var minX: Option<int>
    var maxX: Option<int>
    var minY: Option<int>
    var maxY: Option<int>

    ghost predicate Valid()
      reads this
    {
      Bounded(grid, minX, maxX, minY, maxY)
    }

    constructor()
      ensures Valid()
      ensures tileTypes == map[] && grid == map[]
      ensures minX.None? && maxX.None? && minY.None? && maxY.None?
    {
      tileTypes := map[];
      grid := map[];
      minX := None;
      maxX := None;
      minY := None;
      maxY := None;
    }

    /** get(xy) and get(x, y): the tile there, None (KeyError) where none. */
    function Get(p: Pos): (r: Option<TileType>)
      reads this
      ensures r.Some? <==> p in grid
    {
      if p in grid then Some(grid[p]) else None
    }

    /** has_tile(xy). */
    function HasTile(p: Pos): (b: bool)
      reads this
      ensures b <==> Get(p).Some?
    {
      p in grid
    }

    /** has_tile(x, y) as written: it builds `(x, y)` from a name `x` that
        is not defined in the method, so it raises NameError whatever the
        grid holds. */
    function HasTileAtAsWritten(x: int, y: int): (r: Result<bool, NameError>)
      reads this
      ensures r.Failure? && r.error == NameError("x")
    {
      Failure(NameError("x"))
    }

    /** has_tile(x, y) as intended: whether cell (x, y) holds a tile. */
    function HasTileAt(x: int, y: int): (b: bool)
      reads this
      ensures b <==> Get((x, y)).Some?
      ensures b == HasTile((x, y))
    {
      (x, y) in grid
    }

    /** set: store the tile and widen the bounds to include it. */
    method Set(x: int, y: int, t: TileType)
      requires Valid()
      modifies this
      ensures Valid()
      ensures grid == old(grid)[(x, y) := t]
      ensures minX == Some(Lower(old(minX), x)) && maxX == Some(Upper(old(maxX), x))
      ensures minY == Some(Lower(old(minY), y)) && maxY == Some(Upper(old(maxY), y))
      ensures tileTypes == old(tileTypes)
    {
      SetKeepsBounded(grid, minX, maxX, minY, maxY, x, y, t);
      minX, maxX := Some(Lower(minX, x)), Some(Upper(maxX, x));
      minY, maxY := Some(Lower(minY, y)), Some(Upper(maxY, y));
      grid := grid[(x, y) := t];
    }

    /** register_tile_type: overwrites any earlier entry for the handle. */
    method RegisterTileType(handle: char, t: TileType)
      modifies this
      ensures tileTypes == old(tileTypes)[handle := t]
      ensures grid == old(grid) && minX == old(minX) && maxX == old(maxX)
      ensures minY == old(minY) && maxY == old(maxY)
    {
      tileTypes := tileTypes[handle := t];
    }

    function MinXY(): (r: (Option<int>, Option<int>))
      reads this
      requires Valid()
      ensures r.0.Some? ==> forall p :: p in grid ==> r.0.value <= p.0
      ensures r.1.Some? ==> forall p :: p in grid ==> r.1.value <= p.1
      ensures r.0.None? <==> grid == map[]
    {
      (minX, minY)
    }

    function MaxXY(): (r: (Option<int>, Option<int>))
      reads this
      requires Valid()
      ensures r.0.Some? ==> forall p :: p in grid ==> p.0 <= r.0.value
      ensures r.1.Some? ==> forall p :: p in grid ==> p.1 <= r.1.value
      ensures r.0.None? <==> grid == map[]
    {
      (maxX, maxY)
    }
  }

  /** has_tile(x, y) on a grid holding (0, 0): the code raises where the
      evidently intended answer is true. */
  lemma HasTileAtRaises(g: TileGrid)
    requires (0, 0) in g.grid
    ensures g.HasTileAtAsWritten(0, 0).Failure? && g.HasTileAt(0, 0)
  {
  }

  // ---------------------------------------------------------------------
  // tile_grid_from_string

  /** The row of character `i`: the line breaks before it. */
  function Row(s: string, i: nat): (r: nat)
    requires i <= |s|
    ensures r <= i
  {
    if i == 0 then 0 else Row(s, i - 1) + (if s[i - 1] == '\n' then 1 else 0)
  }

  /** The column of character `i`: how far it is from the last line break. */
  function Col(s: string, i: nat): (c: nat)
    requires i <= |s|
    ensures c <= i
  {
    if i == 0 then 0 else if s[i - 1] == '\n' then 0 else Col(s, i - 1) + 1
  }

  /** A character the parser places: anything but a space or a line break. */
  predicate Placed(c: char)
  {
    c != ' ' && c != '\n'
  }

  /** The grid built from the first `n` characters; None at the first placed
      character that has no tile type (KeyError). */
  function Cells(types: map<char, TileType>, s: string, n: nat): Option<map<Pos, TileType>>
    requires n <= |s|
  {
    if n == 0 then Some(map[])
    else
      match Cells(types, s, n - 1)
      case None => None
      case Some(g) =>
        var c := s[n - 1];
        if !Placed(c) then Some(g)
        else if c in types then Some(g[(Col(s, n - 1), Row(s, n - 1)) := types[c]])
        else None
  }

  /** Characters further on sit strictly later: on a later row, or further
      right on the same row. */
  lemma {:induction false} LaterPosition(s: string, i: nat, j: nat)
    requires i < j <= |s|
    ensures Row(s, i) < Row(s, j) || (Row(s, i) == Row(s, j) && Col(s, i) < Col(s, j))
    decreases j
  {
    if i < j - 1 {
      LaterPosition(s, i, j - 1);
    }
  }

  /** The parser fails exactly when some placed character has no type. */
  lemma {:induction false} CellsFail(types: map<char, TileType>, s: string, n: nat)
    requires n <= |s|
    ensures Cells(types, s, n).None? <==> exists i :: 0 <= i < n && Placed(s[i]) && s[i] !in types
    decreases n
  {
    if n > 0 {
      CellsFail(types, s, n - 1);
      if Cells(types, s, n - 1).None? {
        var i :| 0 <= i < n - 1 && Placed(s[i]) && s[i] !in types;
        assert 0 <= i < n;
      }
    }
  }

  /** Where the parser succeeds, every placed character's cell holds its
      type, and every tile comes from a placed character. */
  lemma {:induction false} CellsPlace(types: map<char, TileType>, s: string, n: nat)
    requires n <= |s| && Cells(types, s, n).Some?
    ensures var g := Cells(types, s, n).value;
      (forall i :: 0 <= i < n && Placed(s[i]) ==>
         s[i] in types && (Col(s, i), Row(s, i)) in g && g[(Col(s, i), Row(s, i))] == types[s[i]])
      && (forall p :: p in g ==> exists i :: 0 <= i < n && Placed(s[i]) && p == (Col(s, i), Row(s, i)))
    decreases n
  {
    if n > 0 {
      CellsPlace(types, s, n - 1);
      var g := Cells(types, s, n - 1).value;
      var c := s[n - 1];
      if Placed(c) {
        forall i | 0 <= i < n - 1 && Placed(s[i])
          ensures (Col(s, i), Row(s, i)) != (Col(s, n - 1), Row(s, n - 1))
        {
          LaterPosition(s, i, n - 1);
        }
      }
    }
  }

  /** tile_grid_from_string: each placed character at (column, row) gets
      its tile type; a character with no type raises KeyError (None). */
  method FromString(types: map<char, TileType>, s: string) returns (r: Option<TileGrid>)
    ensures r == None <==> Cells(types, s, |s|).None?
    ensures r.Some? ==>
      (fresh(r.value) && r.value.Valid()
       && r.value.grid == Cells(types, s, |s|).value && r.value.tileTypes == map[])
  {
    var g := new TileGrid();
    var row, col := 0, 0;
    var i := 0;
    while i < |s|
      invariant 0 <= i <= |s|
      invariant row == Row(s, i) && col == Col(s, i)
      invariant fresh(g) && g.Valid() && g.tileTypes == map[]
      invariant Cells(types, s, i) == Some(g.grid)
      modifies g
    {
      var c := s[i];
      if c == '\n' {
        row, col := row + 1, 0;
      } else if c == ' ' {
        col := col + 1;
      } else {
        if c !in types {
          CellsStaysFailed(types, s, i + 1, |s|);
          return None;
        }
        g.Set(col, row, types[c]);
        col := col + 1;
      }
      i := i + 1;
    }
    r := Some(g);
  }

  /** Once the grid of a prefix fails, so does the whole. */
  lemma {:induction false} CellsStaysFailed(types: map<char, TileType>, s: string, k: nat, n: nat)
    requires k <= n <= |s| && Cells(types, s, k).None?
    ensures Cells(types, s, n).None?
    decreases n
  {
    if k < n {
      CellsStaysFailed(types, s, k, n - 1);
    }
  }

  // ---------------------------------------------------------------------
  // Entity

  /** The components after storing each pair in order. */
  function StoreAll<V>(cs: map<string, V>, pairs: seq<(string, V)>): map<string, V>
  {
    if pairs == [] then cs
    else StoreAll(cs, pairs[..|pairs| - 1])[pairs[|pairs| - 1].0 := pairs[|pairs| - 1].1]
  }

  /** After set_many, a key holds the data of its last pair, and a key that
      no pair names keeps its old data. */
  lemma {:induction false} StoreAllLastWins<V>(cs: map<string, V>, pairs: seq<(string, V)>, key: string)
    ensures (exists i :: 0 <= i < |pairs| && pairs[i].0 == key) ==>
      key in StoreAll(cs, pairs) && StoreAll(cs, pairs)[key] == pairs[LastIndex(pairs, key)].1
    ensures (forall i :: 0 <= i < |pairs| ==> pairs[i].0 != key) ==>
      (key in StoreAll(cs, pairs) <==> key in cs)
      && (key in cs ==> StoreAll(cs, pairs)[key] == cs[key])
    decreases |pairs|
  {
    if pairs != [] {
      var p := pairs[..|pairs| - 1];
      StoreAllLastWins(cs, p, key);
      assert forall i :: 0 <= i < |p| ==> p[i] == pairs[i];
      if pairs[|pairs| - 1].0 != key && exists i :: 0 <= i < |pairs| && pairs[i].0 == key {
        var i :| 0 <= i < |pairs| && pairs[i].0 == key;
        assert i < |p|;
      }
    }
  }

  /** The index of the last pair naming `key`. */
  function LastIndex<V>(pairs: seq<(string, V)>, key: string): (i: nat)
    requires exists i :: 0 <= i < |pairs| && pairs[i].0 == key
    ensures i < |pairs| && pairs[i].0 == key
    ensures forall j :: i < j < |pairs| ==> pairs[j].0 != key
  {
    if pairs[|pairs| - 1].0 == key then |pairs| - 1
    else
      var i :| 0 <= i < |pairs| && pairs[i].0 == key;
      assert i < |pairs| - 1 && pairs[..|pairs| - 1][i] == pairs[i];
      LastIndex(pairs[..|pairs| - 1], key)
  }

  class Entity<V> {
    const id: int
    var components: map<string, V>

    constructor(id: int)
      ensures this.id == id && components == map[]
    {
      this.id := id;
      components := map[];
    }

    method Set(key: string, data: V)
      modifies this
      ensures components == old(components)[key := data]
    {
      components := components[key := data];
    }

    /** get: the component, or the default where there is none. */
    function Get(key: string, default: V): (r: V)
      reads this
      ensures key in components ==> r == components[key]
      ensures key !in components ==> r == default
    {
      if key in components then components[key] else default
    }

    /** set_many: set each pair in order. */
    method SetMany(pairs: seq<(string, V)>)
      modifies this
      ensures components == StoreAll(old(components), pairs)
    {
      var i := 0;
      while i < |pairs|
        invariant 0 <= i <= |pairs|
        invariant components == StoreAll(old(components), pairs[..i])
      {
        assert pairs[..i + 1][..i] == pairs[..i];
        Set(pairs[i].0, pairs[i].1);
        i := i + 1;
      }
      assert pairs[..i] == pairs;
    }
  }
}
