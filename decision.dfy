/** The turn decisions of decision.h / decision.cpp: what the entity whose
    turn it is wants to do, chosen by the CPU rules or from a mouse click.
    The ECS queries become parameters: `agents` is the GridPos/Agent join
    in ascending id order, `positions` the GridPos store. */
module Decisions {
  import opened Wrappers
  import opened GeoMath
  import opened Dijkstra

  /** Decision with its union payload: the position for MOVE_TO, the
      target for the entity-directed kinds. */
  datatype Decision = Deciding | Pass | MoveTo(pos: IVec2) | AttackEntity(target: nat)
                    | LookAt(target: nat) | Talk(target: nat)

  /** The two flags of the turn the rules consult. */
  datatype Turn = Turn(didAction: bool, didMove: bool)

  // ---------------------------------------------------------------------
  // enemies_in_range

  predicate InRange(a: AgentEntry, team: nat, pos: IVec2, range: nat) {
    a.team != team && ManhDist(pos, a.pos) <= range
  }

  /** The ids enemies_in_range collects, in the order of the join. */
  function InRangeIds(agents: seq<AgentEntry>, team: nat, pos: IVec2, range: nat): (ids: seq<nat>)
    ensures |ids| <= |agents|
  {
    if agents == [] then []
    else
      var init := agents[..|agents| - 1];
      var last := agents[|agents| - 1];
      InRangeIds(init, team, pos, range) + (if InRange(last, team, pos, range) then [last.id] else [])
  }

  /** An id is collected iff some agent with that id is an enemy within
      Manhattan distance range. */
  lemma {:induction false} InRangeIdsMeaning(agents: seq<AgentEntry>, team: nat, pos: IVec2, range: nat, id: nat)
    ensures id in InRangeIds(agents, team, pos, range) <==>
      exists j :: 0 <= j < |agents| && agents[j].id == id && InRange(agents[j], team, pos, range)
  {
    if agents != [] {
      var init := agents[..|agents| - 1];
      InRangeIdsMeaning(init, team, pos, range, id);
      if id in InRangeIds(init, team, pos, range) {
        var j :| 0 <= j < |init| && init[j].id == id && InRange(init[j], team, pos, range);
        assert agents[j] == init[j];
      }
      if j :| 0 <= j < |agents| && agents[j].id == id && InRange(agents[j], team, pos, range) {
        if j < |init| {
          assert init[j] == agents[j];
        }
      }
    }
  }

  predicate AscendingIds(agents: seq<AgentEntry>) {
    forall i, j :: 0 <= i < j < |agents| ==> agents[i].id < agents[j].id
  }

  predicate Ascending(ids: seq<nat>) {
    forall i, j :: 0 <= i < j < |ids| ==> ids[i] < ids[j]
  }

  /** Over a join in ascending id order the collected ids ascend as well,
      and each is the id of an agent. */
  lemma {:induction false} InRangeIdsAscending(agents: seq<AgentEntry>, team: nat, pos: IVec2, range: nat)
    requires AscendingIds(agents)
    ensures Ascending(InRangeIds(agents, team, pos, range))
    ensures forall k :: 0 <= k < |InRangeIds(agents, team, pos, range)| ==>
      exists j :: 0 <= j < |agents| && agents[j].id == InRangeIds(agents, team, pos, range)[k]
  {
    if agents != [] {
      var init := agents[..|agents| - 1];
      var last := agents[|agents| - 1];
      assert AscendingIds(init);
      InRangeIdsAscending(init, team, pos, range);
      var ids := InRangeIds(agents, team, pos, range);
      var ids' := InRangeIds(init, team, pos, range);
      forall k | 0 <= k < |ids| ensures exists j :: 0 <= j < |agents| && agents[j].id == ids[k] {
        if k < |ids'| {
          var j :| 0 <= j < |init| && init[j].id == ids'[k];
          assert agents[j] == init[j];
        } else {
          assert ids[k] == last.id;
        }
      }
      forall k | 0 <= k < |ids'| ensures ids'[k] < last.id {
        var j :| 0 <= j < |init| && init[j].id == ids'[k];
        assert agents[j] == init[j];
      }
    }
  }

  /** enemies_in_range: a loop over the join pushing back every enemy within
      range. */
  method EnemiesInRange(agents: seq<AgentEntry>, team: nat, pos: IVec2, range: nat) returns (enemies: seq<nat>)
    ensures enemies == InRangeIds(agents, team, pos, range)
  {
    enemies := [];
    for i := 0 to |agents|
      invariant enemies == InRangeIds(agents[..i], team, pos, range)
    {
      assert agents[..i + 1][..i] == agents[..i];
      if agents[i].team != team && ManhDist(pos, agents[i].pos) <= range {
        enemies := enemies + [agents[i].id];
      }
    }
    assert agents[..|agents|] == agents;
  }

  // ---------------------------------------------------------------------
  // can_attack, can_talk

  /** can_attack: the target's GridPos is read with read_or_panic, so the
      target must have one. */
  function CanAttack(turn: Turn, positions: map<nat, IVec2>, fromPos: IVec2, range: nat, target: nat): (b: bool)
    requires target in positions
    ensures b ==> !turn.didAction
    ensures !turn.didAction ==> (b <==> DiamondDist(positions[target], fromPos) <= range)
  {
    !turn.didAction && DiamondDist(positions[target], fromPos) <= range
  }

  /** Within Manhattan distance range is always within attack range, and
      attack range grows with range. */
  lemma CanAttackWithin(turn: Turn, positions: map<nat, IVec2>, fromPos: IVec2, range: nat, range': nat, target: nat)
    requires target in positions && !turn.didAction
    ensures ManhDist(positions[target], fromPos) <= range ==> CanAttack(turn, positions, fromPos, range, target)
    ensures range <= range' && CanAttack(turn, positions, fromPos, range, target) ==>
      CanAttack(turn, positions, fromPos, range', target)
  {
  }

  /** can_talk: attack range 3. */
  function CanTalk(turn: Turn, positions: map<nat, IVec2>, fromPos: IVec2, target: nat): (b: bool)
    requires target in positions
    ensures b <==> !turn.didAction && DiamondDist(positions[target], fromPos) <= 3
  {
    CanAttack(turn, positions, fromPos, 3, target)
  }

  // ---------------------------------------------------------------------
  // cpu_decision

  function MinNat(a: nat, b: nat): nat {
    if a <= b then a else b
  }

  /** Where the CPU walks towards an enemy at enemyPos: the ancestor of
      enemyPos that is move steps from the source, or the tile just short of
      the enemy when that is closer. */
  ghost function Approach(nodes: Nodes, source: IVec2, enemyPos: IVec2, move: nat): (r: IVec2)
    requires Linked(nodes, source) && enemyPos in nodes && enemyPos != source
    ensures r in nodes && r != enemyPos
    ensures nodes[r].dist == MinNat(nodes[enemyPos].dist - 1, move) && nodes[r].dist <= move
  {
    assert LinkedAt(nodes, source, enemyPos);
    var k := MinNat(nodes[enemyPos].dist - 1, move);
    ChainAt(nodes, source, enemyPos, k);
    ChainFrom(nodes, source, enemyPos)[k]
  }

  /** rewind_until with the predicate of cpu_decision stops at Approach:
      along the chain the distance of element j is j, and only the last
      element is the enemy's tile. */
  lemma ApproachIsRewind(nodes: Nodes, source: IVec2, enemyPos: IVec2, move: nat, k: nat)
    requires Linked(nodes, source) && enemyPos in nodes && enemyPos != source
    requires k <= nodes[enemyPos].dist
    requires var c := ChainFrom(nodes, source, enemyPos);
      && c[k] in nodes
      && (k == 0 || (c[k] != enemyPos && nodes[c[k]].dist <= move))
      && (forall j :: k < j <= nodes[enemyPos].dist ==>
            c[j] in nodes && !(c[j] != enemyPos && nodes[c[j]].dist <= move))
    ensures Approach(nodes, source, enemyPos, move) == ChainFrom(nodes, source, enemyPos)[k]
    ensures var r := ChainFrom(nodes, source, enemyPos)[k];
      r in nodes && r != enemyPos && nodes[r].dist <= move
  {
    var c := ChainFrom(nodes, source, enemyPos);
    var d := nodes[enemyPos].dist;
    assert LinkedAt(nodes, source, enemyPos);
    var m := MinNat(d - 1, move);
    ChainAt(nodes, source, enemyPos, m);
    ChainAt(nodes, source, enemyPos, k);
    ChainAt(nodes, source, enemyPos, 0);
    assert c[m] != enemyPos && nodes[c[m]].dist == m;
    assert c[d] == enemyPos;
  }

  /** cpu_decision. The answer is an error carrying the position when
      nearest_enemy_location's at() lookup fails; `which` is the index in
      the join of the enemy approached. */
  method CpuDecision(turn: Turn, nodes: Nodes, source: IVec2, agents: seq<AgentEntry>,
                     id: nat, team: nat, pos: IVec2, range: nat, move: nat)
    returns (r: Result<Decision, IVec2>, ghost which: nat)
    requires Linked(nodes, source)
    ensures r.Success? ==> r.value.Pass? || r.value.MoveTo? || r.value.AttackEntity?
    ensures !turn.didAction && InRangeIds(agents, team, pos, range) != [] ==>
      r == Success(AttackEntity(InRangeIds(agents, team, pos, range)[0]))
    ensures turn.didAction ==> r == Success(Pass)
    ensures !turn.didAction && turn.didMove && InRangeIds(agents, team, pos, range) == [] ==> r == Success(Pass)
    ensures r.Success? && r.value.AttackEntity? ==> !turn.didAction && InRangeIds(agents, team, pos, range) != []
    ensures r.Failure? ==>
      && !turn.didAction && !turn.didMove && InRangeIds(agents, team, pos, range) == []
      && which < |agents| && Candidate(agents[which], id, team, source) && r.error == agents[which].pos
      && r.error !in nodes
      && (forall j :: 0 <= j < which && Candidate(agents[j], id, team, source) ==> agents[j].pos in nodes)
    ensures r.Success? && r.value.MoveTo? ==>
      && !turn.didAction && !turn.didMove && InRangeIds(agents, team, pos, range) == []
      && which < |agents| && Candidate(agents[which], id, team, source)
      && agents[which].pos in nodes
      && (forall j :: 0 <= j < |agents| && Candidate(agents[j], id, team, source) ==>
            agents[j].pos in nodes && nodes[agents[which].pos].dist <= nodes[agents[j].pos].dist)
      && (forall j :: 0 <= j < which && Candidate(agents[j], id, team, source) ==>
            nodes[agents[which].pos].dist < nodes[agents[j].pos].dist)
      && r.value.pos == Approach(nodes, source, agents[which].pos, move)
      && r.value.pos in nodes && r.value.pos != agents[which].pos && nodes[r.value.pos].dist <= move
    ensures r == Success(Pass) && !turn.didAction && !turn.didMove ==>
      forall j :: 0 <= j < |agents| ==> !Candidate(agents[j], id, team, source)
  {
    which := 0;
    var decision := Deciding;
    if !turn.didAction {
      var enemies := EnemiesInRange(agents, team, pos, range);
      if |enemies| > 0 {
        decision := AttackEntity(enemies[0]);
      }
    }
    if decision == Deciding && !turn.didAction && !turn.didMove {
      var nearest;
      nearest, which := NearestEnemyLocation(nodes, source, agents, id, team);
      match nearest {
        case Missing(p) =>
          return Failure(p), which;
        case Found(_, enemyPos) =>
          var pred := (p: IVec2, n: DijkstraNode) => p != enemyPos && n.dist <= move;
          var dest := RewindUntil(nodes, source, enemyPos, pred);
          ApproachIsRewind(nodes, source, enemyPos, move, nodes[dest].dist);
          decision := MoveTo(dest);
        case NoEnemy =>
      }
    }
    if decision == Deciding {
      decision := Pass;
    }
    r := Success(decision);
  }

  // ---------------------------------------------------------------------
  // player_decision

  /** player_decision: `click` is the mouse position of a left click, if
      any; `occupant` is actor_at of the clicked tile; the target's GridPos
      must exist, as can_attack reads it with read_or_panic. */
  function PlayerDecision(turn: Turn, positions: map<nat, IVec2>, pos: IVec2, click: Option<IVec2>,
                          occupant: Option<nat>, range: nat, move: nat): (r: Decision)
    requires occupant.Some? ==> occupant.value in positions
    ensures click.None? ==> r == Deciding
    ensures r == Pass <==> click == Some(pos)
    ensures r.AttackEntity? ==>
      && click.Some? && click.value != pos && occupant == Some(r.target)
      && !turn.didAction && DiamondDist(positions[r.target], pos) <= range
    ensures r.MoveTo? ==>
      && click == Some(r.pos) && r.pos != pos && occupant.None? && ManhDist(pos, r.pos) <= move
    ensures r.Deciding? || r.Pass? || r.AttackEntity? || r.MoveTo?
  {
    if click.None? then Deciding
    else if pos == click.value then Pass
    else if occupant.Some? && CanAttack(turn, positions, pos, range, occupant.value) then AttackEntity(occupant.value)
    else if occupant.None? && ManhDist(pos, click.value) <= move then MoveTo(click.value)
    else Deciding
  }

  /** A click on another tile is decided unless it is out of reach: an
      occupant the actor cannot attack, or an empty tile beyond move. */
  lemma PlayerDecisionUndecided(turn: Turn, positions: map<nat, IVec2>, pos: IVec2, click: IVec2,
                                occupant: Option<nat>, range: nat, move: nat)
    requires occupant.Some? ==> occupant.value in positions
    requires click != pos
    ensures PlayerDecision(turn, positions, pos, Some(click), occupant, range, move) == Deciding <==>
      (occupant.Some? && !CanAttack(turn, positions, pos, range, occupant.value))
      || (occupant.None? && ManhDist(pos, click) > move)
  {
  }
}
