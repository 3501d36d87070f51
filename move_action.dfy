/** MoveAction of action.cpp: walks an actor along a path, one tile per
    200 ms, and writes the end of the path into its components when done. */
module MoveActions {
  import opened Timer
  import opened Actions
  import opened GeoMath

  const MoveTileTime: nat := 200

  /** The Transform component: its position and depth. */
  datatype Transform = Transform(pos: RVec2, z: int)

  class MoveAction {
    const action: Action
    const actor: nat
    const path: seq<IVec2>

    /** The watch's target is 200 ms per point of the path, already running. */
    constructor (actor: nat, path: seq<IVec2>)
      ensures fresh(action) && fresh(action.watch)
      ensures this.actor == actor && this.path == path
      ensures action.watch.target == MoveTileTime * |path|
      ensures action.watch.started && action.watch.durationWaited == 0 && !action.stopShort
    {
      var w := new StopWatch(MoveTileTime * |path|);
      action := new Action(w);
      this.actor := actor;
      this.path := path;
    }

    /** impl(): `gridPos` and `transforms` are the GridPos and Transform
        stores, `interpolated` the position mixed along the path by the
        ratio finished. Without both components nothing is written. Before
        the end only the Transform moves; once finished both components sit
        on the last point of the path. An empty path matters only where
        both components are there: the interpolation and `path_.back()` read
        it, and on an empty vector that is undefined. */
    method Impl(gridPos: map<nat, IVec2>, transforms: map<nat, Transform>, interpolated: RVec2)
      returns (gridPos': map<nat, IVec2>, transforms': map<nat, Transform>)
      requires actor in gridPos && actor in transforms ==> |path| > 0
      ensures actor !in gridPos || actor !in transforms ==> gridPos' == gridPos && transforms' == transforms
      ensures actor in gridPos && actor in transforms && !action.Finished() ==>
        gridPos' == gridPos && transforms' == transforms[actor := transforms[actor].(pos := interpolated)]
      ensures actor in gridPos && actor in transforms && action.Finished() ==>
        gridPos' == gridPos[actor := path[|path| - 1]] &&
        transforms' == transforms[actor := transforms[actor].(pos := ToReal(path[|path| - 1]))]
    {
      gridPos', transforms' := gridPos, transforms;
      if actor !in gridPos || actor !in transforms {
        return;
      }
      transforms' := transforms'[actor := transforms'[actor].(pos := interpolated)];
      if action.Finished() {
        gridPos' := gridPos'[actor := path[|path| - 1]];
        transforms' := transforms'[actor := transforms'[actor].(pos := ToReal(path[|path| - 1]))];
      }
    }
  }

  /** Once the whole path's time has been waited the move is finished. */
  lemma MoveFinishesOnTime(pathLength: nat, waited: nat)
    requires waited >= MoveTileTime * pathLength
    ensures ActionFinishedOf(false, true, waited, MoveTileTime * pathLength)
    ensures RatioOf(true, waited, MoveTileTime * pathLength) == 1.0
  {
    RatioOneIffFinished(true, waited, MoveTileTime * pathLength);
  }

  /** ... and not before, unless stopped short. */
  lemma MoveNotFinishedEarly(pathLength: nat, waited: nat)
    requires waited < MoveTileTime * pathLength
    ensures !ActionFinishedOf(false, true, waited, MoveTileTime * pathLength)
    ensures RatioOf(true, waited, MoveTileTime * pathLength) < 1.0
  {
    RatioOneIffFinished(true, waited, MoveTileTime * pathLength);
  }
}
