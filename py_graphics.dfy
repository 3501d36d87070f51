/** graphics.py and include/graphics.py (and the copies of the same code in
    main.py): grid <-> pixel conversions, the surface registry that hands out
    integer ids, and the Frame that queues render tasks by depth. Surfaces
    themselves are pygame objects and appear here only as values. */
module PyGraphics {
  import opened Wrappers
  import PyVec

  const TileSize := 20

  type Pos = (int, int)

  // ---------------------------------------------------------------------
  // Conversions with the camera offset in grid cells (main.py, graphics.py)

  /** The pixel corner of grid cell `g` seen from camera cell `cam`. */
  function GraphicalPos(cam: Pos, g: Pos): (r: Pos)
    ensures r.0 % TileSize == 0 && r.1 % TileSize == 0
  {
    ((g.0 - cam.0) * TileSize, (g.1 - cam.1) * TileSize)
  }

  /** `floor(p / TILE_SIZE + cam)` on each axis, with Python's true division. */
  function GridPos(cam: Pos, p: Pos): (r: Pos)
  {
    ((p.0 as real / TileSize as real + cam.0 as real).Floor,
     (p.1 as real / TileSize as real + cam.1 as real).Floor)
  }

  /** Floor of a true quotient by the tile size is Euclidean division. */
  lemma FloorOfQuotient(p: int, c: int)
    ensures (p as real / TileSize as real + c as real).Floor == p / TileSize + c
  {
    var q := p / TileSize;
    var rem := p % TileSize;
    assert p == q * TileSize + rem && 0 <= rem < TileSize;
    assert p as real / TileSize as real + c as real == (q + c) as real + rem as real / TileSize as real;
  }

  /** GridPos is the cell holding the pixel: cell = p div 20 + cam. */
  lemma GridPosIsDiv(cam: Pos, p: Pos)
    ensures GridPos(cam, p) == (p.0 / TileSize + cam.0, p.1 / TileSize + cam.1)
  {
    FloorOfQuotient(p.0, cam.0);
    FloorOfQuotient(p.1, cam.1);
  }

  /** A cell's pixel corner maps back to the cell. */
  lemma GridOfGraphical(cam: Pos, g: Pos)
    ensures GridPos(cam, GraphicalPos(cam, g)) == g
  {
    GridPosIsDiv(cam, GraphicalPos(cam, g));
  }

  /** Every pixel lies inside the tile of the cell GridPos gives it. */
  lemma PixelInsideItsTile(cam: Pos, p: Pos)
    ensures var c := GraphicalPos(cam, GridPos(cam, p));
      c.0 <= p.0 < c.0 + TileSize && c.1 <= p.1 < c.1 + TileSize
  {
    GridPosIsDiv(cam, p);
  }

  // ---------------------------------------------------------------------
  // Conversions with the camera offset in pixels (include/graphics.py)

  /** TiledPos: the pixel corner of a cell, as a Vec2d. */
  function TiledPos(g: Pos): (r: PyVec.Vec2d)
    ensures r == PyVec.Scale(PyVec.Vec2d(g.0 as real, g.1 as real), TileSize as real)
  {
    PyVec.Vec2d((g.0 * TileSize) as real, (g.1 * TileSize) as real)
  }

  /** GraphicalPos of include/graphics.py: cell corner less the camera pixels. */
  function PixelGraphicalPos(cam: Pos, g: Pos): (r: Pos)
    ensures r.0 + cam.0 == TiledPos(g).x.Floor && r.1 + cam.1 == TiledPos(g).y.Floor
  {
    (g.0 * TileSize - cam.0, g.1 * TileSize - cam.1)
  }

  /** GridPos of include/graphics.py: `floor((p + cam) / TILE_SIZE)`. */
  function PixelGridPos(cam: Pos, p: Pos): (r: Pos)
  {
    (((p.0 + cam.0) as real / TileSize as real).Floor,
     ((p.1 + cam.1) as real / TileSize as real).Floor)
  }

  lemma PixelGridPosIsDiv(cam: Pos, p: Pos)
    ensures PixelGridPos(cam, p) == ((p.0 + cam.0) / TileSize, (p.1 + cam.1) / TileSize)
  {
    FloorOfQuotient(p.0 + cam.0, 0);
    FloorOfQuotient(p.1 + cam.1, 0);
    assert (p.0 + cam.0) as real / TileSize as real + 0 as real == (p.0 + cam.0) as real / TileSize as real;
    assert (p.1 + cam.1) as real / TileSize as real + 0 as real == (p.1 + cam.1) as real / TileSize as real;
  }

  /** The round trip of include/graphics.py. */
  lemma PixelGridOfGraphical(cam: Pos, g: Pos)
    ensures PixelGridPos(cam, PixelGraphicalPos(cam, g)) == g
  {
    PixelGridPosIsDiv(cam, PixelGraphicalPos(cam, g));
  }

  /** Every pixel lies in the tile of its cell, camera pixels included. */
  lemma PixelInsideItsTileScrolled(cam: Pos, p: Pos)
    ensures var c := PixelGraphicalPos(cam, PixelGridPos(cam, p));
      c.0 <= p.0 < c.0 + TileSize && c.1 <= p.1 < c.1 + TileSize
  {
    PixelGridPosIsDiv(cam, p);
  }

  // ---------------------------------------------------------------------
  // SurfaceRegistry

  /** A surface: text rendered with the registry's font, or any other image. */
  datatype Surface = Rendered(text: string) | Image(handle: int)

  /** The index `registry[idx]` accepts: an id, or a string. */
  datatype Index = Id(id: int) | Text(text: string)

  class SurfaceRegistry {
    var nextId: int
    var registry: map<int, Surface>
    var charRegistry: map<char, int>

    /** Ids are handed out from 1 upwards: every id in use is below nextId. */
    ghost predicate Valid()
      reads this
    {
      && 1 <= nextId
      && (forall id :: id in registry ==> 1 <= id < nextId)
      && (forall c :: c in charRegistry ==> 1 <= charRegistry[c] < nextId)
    }

    constructor()
      ensures Valid()
      ensures nextId == 1 && registry == map[] && charRegistry == map[]
    {
      nextId := 1;
      registry := map[];
      charRegistry := map[];
    }

    /** RegisterSurface: the next id, never one already in use. */
    method RegisterSurface(s: Surface) returns (id: int)
      requires Valid()
      modifies this
      ensures Valid()
      ensures id == old(nextId) && nextId == id + 1
      ensures id !in old(registry)
      ensures registry == old(registry)[id := s]
      ensures charRegistry == old(charRegistry)
    {
      registry := registry[nextId := s];
      id := nextId;
      nextId := nextId + 1;
    }

    /** UnregisterSurface: drops the id if present, otherwise a no-op. */
    method UnregisterSurface(id: int)
      requires Valid()
      modifies this
      ensures Valid()
      ensures registry == old(registry) - {id}
      ensures nextId == old(nextId) && charRegistry == old(charRegistry)
    {
      if id in registry {
        registry := map k | k in registry && k != id :: registry[k];
      }
    }

    /** RegisterTextFromFont: render the text and register the result. */
    method RegisterText(text: string) returns (id: int)
      requires Valid()
      modifies this
      ensures Valid()
      ensures id == old(nextId) && nextId == id + 1
      ensures id !in old(registry)
      ensures registry == old(registry)[id := Rendered(text)]
      ensures charRegistry == old(charRegistry)
    {
      id := RegisterSurface(Rendered(text));
    }

    /** GetChar: the id of a character's rendering, rendered and cached on
        first use; later calls return the cached id and change nothing. */
    method GetChar(c: char) returns (id: int)
      requires Valid()
      modifies this
      ensures Valid()
      ensures c in old(charRegistry) ==>
        id == old(charRegistry[c]) && registry == old(registry) && nextId == old(nextId)
        && charRegistry == old(charRegistry)
      ensures c !in old(charRegistry) ==>
        id == old(nextId) && nextId == id + 1 && registry == old(registry)[id := Rendered([c])]
        && charRegistry == old(charRegistry)[c := id]
    {
      if c !in charRegistry {
        var newId := RegisterText([c]);
        charRegistry := charRegistry[c := newId];
      }
      id := charRegistry[c];
    }

    /** main.py's get_char: the surface of GetChar's id, None (KeyError)
        where that id has since been unregistered. */
    method GetCharSurface(c: char) returns (r: Option<Surface>)
      requires Valid()
      modifies this
      ensures Valid()
      ensures c in old(charRegistry) ==>
        registry == old(registry) && charRegistry == old(charRegistry) && nextId == old(nextId)
        && (r.Some? <==> old(charRegistry[c]) in old(registry))
        && (r.Some? ==> r.value == old(registry)[old(charRegistry[c])])
      ensures c !in old(charRegistry) ==>
        r == Some(Rendered([c])) && nextId == old(nextId) + 1
        && registry == old(registry)[old(nextId) := Rendered([c])]
        && charRegistry == old(charRegistry)[c := old(nextId)]
    {
      var id := GetChar(c);
      r := if id in registry then Some(registry[id]) else None;
    }

    /** `__getitem__`: a one-character string goes through GetChar; any
        other string is not a key (KeyError); an id is looked up. */
    method Get(idx: Index) returns (r: Option<Surface>)
      requires Valid()
      modifies this
      ensures Valid()
      ensures idx.Id? ==> unchanged(this) && r == (if idx.id in registry then Some(registry[idx.id]) else None)
      ensures idx.Text? && |idx.text| != 1 ==> unchanged(this) && r.None?
      ensures idx.Text? && |idx.text| == 1 && idx.text[0] !in old(charRegistry) ==>
        r == Some(Rendered(idx.text)) && nextId == old(nextId) + 1
        && registry == old(registry)[old(nextId) := Rendered(idx.text)]
        && charRegistry == old(charRegistry)[idx.text[0] := old(nextId)]
      ensures idx.Text? && |idx.text| == 1 && idx.text[0] in old(charRegistry) ==>
        registry == old(registry) && charRegistry == old(charRegistry) && nextId == old(nextId)
        && r == (if charRegistry[idx.text[0]] in registry then Some(registry[charRegistry[idx.text[0]]]) else None)
    {
      match idx
      case Id(id) =>
        r := if id in registry then Some(registry[id]) else None;
      case Text(s) =>
        if |s| == 1 {
          var id := GetChar(s[0]);
          assert [s[0]] == s;
          r := if id in registry then Some(registry[id]) else None;
        } else {
          r := None;
        }
    }
  }

  // ---------------------------------------------------------------------
  // Frame

  /** A queued blit: where, which surface id, and whether it adds colour. */
  datatype RenderTask = RenderTask(pos: Pos, surfaceId: int, rgbAdd: bool)

  /** One blit Render performs: the task's depth, the surface, the position
      on the frame after the camera offset, and the blend flag. */
  datatype Draw = Draw(z: int, surface: Surface, pos: Pos, add: bool)

  predicate Ascending(zs: seq<int>)
  {
    forall i, j :: 0 <= i < j < |zs| ==> zs[i] < zs[j]
  }

  /** The least element of a non-empty set of depths. */
  function Least(s: set<int>): (m: int)
    requires s != {}
    ensures m in s && forall x :: x in s ==> m <= x
  {
    LeastExists(s);
    var m :| m in s && forall x :: x in s ==> m <= x;
    m
  }

  lemma HasMember(s: set<int>)
    requires s != {}
    ensures exists y :: y in s
  {
    if forall y :: y !in s {
      assert false;
    }
  }

  lemma LeastExists(s: set<int>)
    requires s != {}
    ensures exists m :: m in s && forall x :: x in s ==> m <= x
    decreases |s|
  {
    HasMember(s);
    var y :| y in s;
    if s != {y} {
      LeastExists(s - {y});
      var m :| m in s - {y} && forall x :: x in s - {y} ==> m <= x;
      var least := if y < m then y else m;
      forall x | x in s
        ensures least <= x
      {
        if x != y {
          assert x in s - {y};
        }
      }
    } else {
      forall x | x in s
        ensures y <= x
      {
        assert x in {y};
      }
    }
  }

  /** `sorted(self.tasks.keys())`. */
  function SortedKeys(s: set<int>): (zs: seq<int>)
    ensures Ascending(zs)
    ensures forall z :: z in zs <==> z in s
    ensures |zs| == |s|
    decreases |s|
  {
    if s == {} then []
    else
      var m := Least(s);
      [m] + SortedKeys(s - {m})
  }

  /** The blit for one task, None where its surface id is not registered
      (the registry lookup raises KeyError). */
  function DrawOf(z: int, t: RenderTask, reg: map<int, Surface>, cam: Pos): (d: Option<Draw>)
    ensures d.Some? <==> t.surfaceId in reg
    ensures d.Some? ==> d.value.z == z && d.value.surface == reg[t.surfaceId]
  {
    if t.surfaceId in reg then Some(Draw(z, reg[t.surfaceId], (t.pos.0 - cam.0, t.pos.1 - cam.1), t.rgbAdd))
    else None
  }

  /** The blits for one depth's tasks, in insertion order. */
  function DrawsAt(z: int, ts: seq<RenderTask>, reg: map<int, Surface>, cam: Pos): (r: Option<seq<Draw>>)
    ensures r.Some? ==> |r.value| == |ts|
  {
    if ts == [] then Some([])
    else
      match DrawsAt(z, ts[..|ts| - 1], reg, cam)
      case None => None
      case Some(ds) =>
        match DrawOf(z, ts[|ts| - 1], reg, cam)
        case None => None
        case Some(d) => Some(ds + [d])
  }

  /** The blits for the depths `zs`, one depth after another. */
  function DrawsFor(tasks: map<int, seq<RenderTask>>, zs: seq<int>, reg: map<int, Surface>, cam: Pos): Option<seq<Draw>>
    requires forall z :: z in zs ==> z in tasks
  {
    if zs == [] then Some([])
    else
      match DrawsFor(tasks, zs[..|zs| - 1], reg, cam)
      case None => None
      case Some(ds) =>
        match DrawsAt(zs[|zs| - 1], tasks[zs[|zs| - 1]], reg, cam)
        case None => None
        case Some(more) => Some(ds + more)
  }

  /** What Render blits for a task table. */
  function Rendering(tasks: map<int, seq<RenderTask>>, reg: map<int, Surface>, cam: Pos): Option<seq<Draw>>
  {
    DrawsFor(tasks, SortedKeys(tasks.Keys), reg, cam)
  }

  class Frame {
    var cameraOffset: Pos
    var tasks: map<int, seq<RenderTask>>
    const surfaceReg: SurfaceRegistry

    constructor(reg: SurfaceRegistry)
      ensures cameraOffset == (0, 0) && tasks == map[] && surfaceReg == reg
    {
      cameraOffset := (0, 0);
      tasks := map[];
      surfaceReg := reg;
    }

    /** AddTask: append to the list of depth `z`, creating it if need be. */
    method AddTask(pos: Pos, z: int, surfaceId: int, rgbAdd: bool)
      modifies this
      ensures tasks == old(tasks)[z := (if z in old(tasks) then old(tasks)[z] else []) + [RenderTask(pos, surfaceId, rgbAdd)]]
      ensures cameraOffset == old(cameraOffset)
    {
      var queued := if z in tasks then tasks[z] else [];
      tasks := tasks[z := queued + [RenderTask(pos, surfaceId, rgbAdd)]];
    }

    /** Render: blit every task, depths ascending and each depth in
        insertion order, then clear the tasks. A missing surface id raises
        before the tasks are cleared. */
    method Render() returns (r: Option<seq<Draw>>)
      modifies this
      ensures r == Rendering(old(tasks), surfaceReg.registry, cameraOffset)
      ensures r.Some? ==> tasks == map[]
      ensures r.None? ==> tasks == old(tasks)
      ensures cameraOffset == old(cameraOffset)
    {
      r := RenderDepths(tasks, SortedKeys(tasks.Keys), surfaceReg.registry, cameraOffset);
      if r.Some? {
        tasks := map[];
      }
    }
  }

  /** The outer loop of Render: the depths in the order given. */
  method RenderDepths(tasks: map<int, seq<RenderTask>>, zs: seq<int>, reg: map<int, Surface>, cam: Pos)
    returns (r: Option<seq<Draw>>)
    requires forall z :: z in zs ==> z in tasks
    ensures r == DrawsFor(tasks, zs, reg, cam)
  {
    var draws: seq<Draw> := [];
    var k := 0;
    while k < |zs|
      invariant 0 <= k <= |zs|
      invariant DrawsFor(tasks, zs[..k], reg, cam) == Some(draws)
    {
      assert zs[..k + 1][..k] == zs[..k];
      var more := RenderDepth(zs[k], tasks[zs[k]], reg, cam);
      if more.None? {
        DrawsForStaysFailed(tasks, zs, reg, cam, k + 1);
        return None;
      }
      draws := draws + more.value;
      k := k + 1;
    }
    assert zs[..k] == zs;
    r := Some(draws);
  }

  /** The inner loop of Render: one depth's tasks in order. */
  method RenderDepth(z: int, ts: seq<RenderTask>, reg: map<int, Surface>, cam: Pos) returns (r: Option<seq<Draw>>)
    ensures r == DrawsAt(z, ts, reg, cam)
  {
    var draws: seq<Draw> := [];
    var i := 0;
    while i < |ts|
      invariant 0 <= i <= |ts|
      invariant DrawsAt(z, ts[..i], reg, cam) == Some(draws)
    {
      assert ts[..i + 1][..i] == ts[..i];
      var t := ts[i];
      if t.surfaceId !in reg {
        DrawsAtFails(z, ts, reg, cam, i);
        return None;
      }
      draws := draws + [Draw(z, reg[t.surfaceId], (t.pos.0 - cam.0, t.pos.1 - cam.1), t.rgbAdd)];
      i := i + 1;
    }
    assert ts[..i] == ts;
    r := Some(draws);
  }

  /** Once a prefix of the depths fails, so does the whole. */
  lemma {:induction false} DrawsForStaysFailed(tasks: map<int, seq<RenderTask>>, zs: seq<int>, reg: map<int, Surface>, cam: Pos, k: nat)
    requires forall z :: z in zs ==> z in tasks
    requires k <= |zs| && DrawsFor(tasks, zs[..k], reg, cam).None?
    ensures DrawsFor(tasks, zs, reg, cam).None?
    decreases |zs|
  {
    if k < |zs| {
      assert zs[..|zs| - 1][..k] == zs[..k];
      DrawsForStaysFailed(tasks, zs[..|zs| - 1], reg, cam, k);
    } else {
      assert zs[..k] == zs;
    }
  }

  /** One unregistered surface makes the whole depth fail. */
  lemma {:induction false} DrawsAtFails(z: int, ts: seq<RenderTask>, reg: map<int, Surface>, cam: Pos, i: nat)
    requires i < |ts| && ts[i].surfaceId !in reg
    ensures DrawsAt(z, ts, reg, cam).None?
    decreases |ts|
  {
    if i < |ts| - 1 {
      DrawsAtFails(z, ts[..|ts| - 1], reg, cam, i);
    }
  }

  /** Render succeeds exactly when every queued surface id is registered. */
  lemma {:induction false} DrawsAtSucceeds(z: int, ts: seq<RenderTask>, reg: map<int, Surface>, cam: Pos)
    ensures DrawsAt(z, ts, reg, cam).Some? <==> forall i :: 0 <= i < |ts| ==> ts[i].surfaceId in reg
    decreases |ts|
  {
    if ts != [] {
      DrawsAtSucceeds(z, ts[..|ts| - 1], reg, cam);
      assert forall i :: 0 <= i < |ts| - 1 ==> ts[..|ts| - 1][i] == ts[i];
    }
  }

  /** Each depth's blits are its tasks, in order, at that depth. */
  lemma {:induction false} DrawsAtInOrder(z: int, ts: seq<RenderTask>, reg: map<int, Surface>, cam: Pos)
    requires DrawsAt(z, ts, reg, cam).Some?
    ensures forall i :: 0 <= i < |ts| ==>
      DrawOf(z, ts[i], reg, cam).Some? && DrawsAt(z, ts, reg, cam).value[i] == DrawOf(z, ts[i], reg, cam).value
    decreases |ts|
  {
    if ts != [] {
      DrawsAtInOrder(z, ts[..|ts| - 1], reg, cam);
      assert forall i :: 0 <= i < |ts| - 1 ==> ts[..|ts| - 1][i] == ts[i];
    }
  }

  /** The blits of ascending depths come out with non-decreasing depth. */
  lemma {:induction false} DrawsForByDepth(tasks: map<int, seq<RenderTask>>, zs: seq<int>, reg: map<int, Surface>, cam: Pos)
    requires forall z :: z in zs ==> z in tasks
    requires Ascending(zs)
    requires DrawsFor(tasks, zs, reg, cam).Some?
    ensures var ds := DrawsFor(tasks, zs, reg, cam).value;
      (forall i :: 0 <= i < |ds| ==> ds[i].z in zs)
      && forall i, j :: 0 <= i < j < |ds| ==> ds[i].z <= ds[j].z
    decreases |zs|
  {
    if zs != [] {
      var p := zs[..|zs| - 1];
      var z := zs[|zs| - 1];
      DrawsForByDepth(tasks, p, reg, cam);
      var ds := DrawsFor(tasks, p, reg, cam).value;
      var more := DrawsAt(z, tasks[z], reg, cam).value;
      DrawsAtInOrder(z, tasks[z], reg, cam);
      assert forall i :: 0 <= i < |ds| ==> ds[i].z < z by {
        forall i | 0 <= i < |ds|
          ensures ds[i].z < z
        {
          var w := ds[i].z;
          assert w in p;
          var k :| 0 <= k < |p| && p[k] == w;
          assert zs[k] == w;
        }
      }
      assert forall i :: 0 <= i < |more| ==> more[i].z == z;
    }
  }

  /** The blits at depth `z`, in the order they come. */
  function AtDepth(ds: seq<Draw>, z: int): (r: seq<Draw>)
    ensures |r| <= |ds|
  {
    if ds == [] then []
    else AtDepth(ds[..|ds| - 1], z) + (if ds[|ds| - 1].z == z then [ds[|ds| - 1]] else [])
  }

  lemma {:induction false} AtDepthAppend(a: seq<Draw>, b: seq<Draw>, z: int)
    ensures AtDepth(a + b, z) == AtDepth(a, z) + AtDepth(b, z)
    decreases |b|
  {
    if b != [] {
      assert (a + b)[..|a + b| - 1] == a + b[..|b| - 1];
      AtDepthAppend(a, b[..|b| - 1], z);
    } else {
      assert a + b == a;
    }
  }

  lemma {:induction false} AtDepthAll(ds: seq<Draw>, w: int, z: int)
    requires forall i :: 0 <= i < |ds| ==> ds[i].z == w
    ensures AtDepth(ds, z) == if w == z then ds else []
    decreases |ds|
  {
    if ds != [] {
      AtDepthAll(ds[..|ds| - 1], w, z);
      if w == z {
        assert ds[..|ds| - 1] + [ds[|ds| - 1]] == ds;
      }
    }
  }

  /** Picking one depth out of the blits gives that depth's own blits. */
  lemma {:induction false} DrawsForAtDepth(tasks: map<int, seq<RenderTask>>, zs: seq<int>, reg: map<int, Surface>, cam: Pos, z: int)
    requires forall w :: w in zs ==> w in tasks
    requires Ascending(zs)
    requires DrawsFor(tasks, zs, reg, cam).Some?
    ensures z in zs ==>
      (DrawsAt(z, tasks[z], reg, cam).Some?
       && AtDepth(DrawsFor(tasks, zs, reg, cam).value, z) == DrawsAt(z, tasks[z], reg, cam).value)
    ensures z !in zs ==> AtDepth(DrawsFor(tasks, zs, reg, cam).value, z) == []
    decreases |zs|
  {
    if zs != [] {
      var p := zs[..|zs| - 1];
      var w := zs[|zs| - 1];
      DrawsForAtDepth(tasks, p, reg, cam, z);
      var ds := DrawsFor(tasks, p, reg, cam).value;
      var more := DrawsAt(w, tasks[w], reg, cam).value;
      AtDepthAppend(ds, more, z);
      DrawsAtInOrder(w, tasks[w], reg, cam);
      AtDepthAll(more, w, z);
      if z == w {
        forall k | 0 <= k < |p|
          ensures p[k] != z
        {
          assert zs[k] < zs[|zs| - 1];
        }
      }
      assert z in zs <==> z in p || z == w;
    }
  }

  /** Within one depth Render blits that depth's tasks, each once, in the
      order they were added. */
  lemma RenderDepthOrder(tasks: map<int, seq<RenderTask>>, reg: map<int, Surface>, cam: Pos, z: int)
    requires Rendering(tasks, reg, cam).Some? && z in tasks
    ensures var at := AtDepth(Rendering(tasks, reg, cam).value, z);
      |at| == |tasks[z]|
      && forall i :: 0 <= i < |tasks[z]| ==>
        DrawOf(z, tasks[z][i], reg, cam).Some? && at[i] == DrawOf(z, tasks[z][i], reg, cam).value
  {
    var zs := SortedKeys(tasks.Keys);
    DrawsForAtDepth(tasks, zs, reg, cam, z);
    var at := DrawsAt(z, tasks[z], reg, cam).value;
    assert AtDepth(Rendering(tasks, reg, cam).value, z) == at;
    DrawsAtInOrder(z, tasks[z], reg, cam);
  }

  /** Render blits in ascending depth. */
  lemma RenderOrder(tasks: map<int, seq<RenderTask>>, reg: map<int, Surface>, cam: Pos)
    requires Rendering(tasks, reg, cam).Some?
    ensures var ds := Rendering(tasks, reg, cam).value;
      forall i, j :: 0 <= i < j < |ds| ==> ds[i].z <= ds[j].z
  {
    DrawsForByDepth(tasks, SortedKeys(tasks.Keys), reg, cam);
  }
}
