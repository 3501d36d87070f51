/** The hit-point arithmetic of push_hp_change and push_attack in
    script.cpp, as script steps over the actors, their grid positions, the
    entity counter and the game's queue of ordered scripts. */
module Combat {
  import opened Wrappers
  import opened GeoMath
  import opened Scripts

  /** The parts of an actor the attack uses; `onHitEnemy` says whether its
      triggers hold an "on_hit_enemy" script. */
  datatype Fighter = Fighter(hp: int, maxHp: int, strength: int, defense: int, lifesteal: bool, onHitEnemy: bool)

  /** The Actor and GridPos stores, the id the next new entity gets, and
      the ordered scripts queued so far, each named by the actor whose
      "on_hit_enemy" trigger it is. */
  datatype World = World(fighters: map<nat, Fighter>, positions: map<nat, IVec2>, nextId: nat, ordered: seq<nat>)

  /** The damage text appears one tile above the actor. */
  const TextOffset: IVec2 := IVec2(0, 1)

  function Min(a: int, b: int): int { if a <= b then a else b }
  function Max(a: int, b: int): int { if a >= b then a else b }

  /** push_hp_change: subtract the change, but no more than the current hp,
      then cap at max hp. A negative change heals. */
  function HpAfter(hp: int, maxHp: int, change: int): (r: int)
    ensures r <= maxHp
    ensures hp >= 0 ==> r == Min(Max(hp - change, 0), maxHp)
    ensures hp >= 0 && maxHp >= 0 ==> r >= 0
  {
    Min(hp - Min(change, hp), maxHp)
  }

  /** push_attack's damage: strength minus defense, at most the defender's
      hp, and at least 1. */
  function AttackDamage(strength: int, defense: int, defenderHp: int): (d: int)
    ensures d >= 1
    ensures defenderHp >= 1 ==> d <= defenderHp
    ensures 1 <= strength - defense <= defenderHp ==> d == strength - defense
    ensures strength - defense <= 1 ==> d == 1
  {
    Max(Min(strength - defense, defenderHp), 1)
  }

  /** The step push_hp_change pushes: without both components nothing
      changes; otherwise the actor's hp changes and a new entity, the
      damage text, is placed one tile above the actor. Either way CONTINUE. */
  function HpChangeStep(id: nat, change: int): (step: Step<World>)
    ensures forall w: World :: step(w).1 == OfCode(Continue)
    ensures forall w: World :: id !in w.fighters || id !in w.positions ==> step(w).0 == w
  {
    (w: World) =>
      if id !in w.fighters || id !in w.positions then (w, OfCode(Continue))
      else
        var f := w.fighters[id];
        (w.(fighters := w.fighters[id := f.(hp := HpAfter(f.hp, f.maxHp, change))],
            positions := w.positions[w.nextId := w.positions[id].Plus(TextOffset)],
            nextId := w.nextId + 1),
         OfCode(Continue))
  }

  /** What one hp-change step does to any state. */
  lemma HpChangeStepEffect(id: nat, change: int, w: World)
    ensures HpChangeStep(id, change)(w).1 == OfCode(Continue)
    ensures id !in w.fighters || id !in w.positions ==> HpChangeStep(id, change)(w).0 == w
    ensures id in w.fighters && id in w.positions ==>
      var w' := HpChangeStep(id, change)(w).0;
      var f := w.fighters[id];
      && w'.fighters == w.fighters[id := f.(hp := HpAfter(f.hp, f.maxHp, change))]
      && w'.positions == w.positions[w.nextId := w.positions[id].Plus(TextOffset)]
      && w'.nextId == w.nextId + 1
      && w'.ordered == w.ordered
  {
  }

  /** The step push_attack pushes for the attacker's "on_hit_enemy"
      trigger: queue that script as an ordered script. */
  function OnHitStep(attacker: nat): Step<World> {
    (w: World) => (w.(ordered := w.ordered + [attacker]), OfCode(Continue))
  }

  /** The steps push_attack pushes between its camera and thrust steps:
      the defender's hp change, the attacker's "on_hit_enemy" trigger when
      it has one, and a lifestealing attacker's heal. The damage and the
      trigger are fixed when the script is built. */
  function AttackSteps(w: World, attacker: nat, defender: nat): (steps: seq<Step<World>>)
    requires attacker in w.fighters && defender in w.fighters
    ensures |steps| == 1 + (if w.fighters[attacker].onHitEnemy then 1 else 0)
                         + (if w.fighters[attacker].lifesteal then 1 else 0)
    ensures forall j, v :: 0 <= j < |steps| ==> steps[j](v).1 == OfCode(Continue)
  {
    var a := w.fighters[attacker];
    var d := w.fighters[defender];
    var damage := AttackDamage(a.strength, d.defense, d.hp);
    [HpChangeStep(defender, damage)]
      + (if a.onHitEnemy then [OnHitStep(attacker)] else [])
      + (if a.lifesteal then [HpChangeStep(attacker, -damage)] else [])
  }

  /** The world after the defender's hp change and the trigger step. */
  function AfterHit(w: World, attacker: nat, defender: nat): World
    requires attacker in w.fighters && defender in w.fighters && defender in w.positions
  {
    var a := w.fighters[attacker];
    var d := w.fighters[defender];
    var damage := AttackDamage(a.strength, d.defense, d.hp);
    World(w.fighters[defender := d.(hp := HpAfter(d.hp, d.maxHp, damage))],
          w.positions[w.nextId := w.positions[defender].Plus(TextOffset)],
          w.nextId + 1,
          w.ordered + (if a.onHitEnemy then [attacker] else []))
  }

  /** The first one or two steps of the attack lead to AfterHit. */
  lemma RunToAfterHit(w: World, attacker: nat, defender: nat)
    requires attacker in w.fighters && defender in w.fighters && defender in w.positions
    ensures var i := if w.fighters[attacker].onHitEnemy then 2 else 1;
      ThreadFrom(AttackSteps(w, attacker, defender), 0, w)
        == ThreadFrom(AttackSteps(w, attacker, defender), i, AfterHit(w, attacker, defender))
  {
    var a := w.fighters[attacker];
    var d := w.fighters[defender];
    var damage := AttackDamage(a.strength, d.defense, d.hp);
    var steps := AttackSteps(w, attacker, defender);
    var w1 := steps[0](w).0;
    assert steps[0] == HpChangeStep(defender, damage);
    HpChangeStepEffect(defender, damage, w);
    if a.onHitEnemy {
      assert steps[1] == OnHitStep(attacker);
      assert steps[1](w1).0 == AfterHit(w, attacker, defender);
    } else {
      assert w1 == AfterHit(w, attacker, defender);
    }
  }

  /** The lifesteal heal, the last step when the attacker has lifesteal. */
  lemma RunLifesteal(w: World, attacker: nat, defender: nat)
    requires attacker in w.fighters && defender in w.fighters
    requires attacker in w.positions && defender in w.positions
    requires attacker != defender && attacker != w.nextId
    ensures var a := w.fighters[attacker];
      var damage := AttackDamage(a.strength, w.fighters[defender].defense, w.fighters[defender].hp);
      var i := if a.onHitEnemy then 2 else 1;
      var h := AfterHit(w, attacker, defender);
      ThreadFrom(AttackSteps(w, attacker, defender), i, h)
        == if a.lifesteal
           then h.(fighters := h.fighters[attacker := a.(hp := HpAfter(a.hp, a.maxHp, -damage))],
                   positions := h.positions[h.nextId := w.positions[attacker].Plus(TextOffset)],
                   nextId := h.nextId + 1)
           else h
  {
    var a := w.fighters[attacker];
    var damage := AttackDamage(a.strength, w.fighters[defender].defense, w.fighters[defender].hp);
    var i := if a.onHitEnemy then 2 else 1;
    var h := AfterHit(w, attacker, defender);
    var steps := AttackSteps(w, attacker, defender);
    if a.lifesteal {
      assert steps[i] == HpChangeStep(attacker, -damage);
      assert h.fighters[attacker] == a && h.positions[attacker] == w.positions[attacker];
      HpChangeStepEffect(attacker, -damage, h);
      assert ThreadFrom(steps, i + 1, steps[i](h).0) == steps[i](h).0;
    }
  }

  /** Running the attack's steps as a script ends in EXIT with the defender
      hit for the damage, its damage text placed above it, the attacker's
      trigger queued when it has one, and, with lifesteal, the attacker
      healed by the damage with a second text above it. Ids are handed out
      by the entity counter, so every stored id is below the next one. */
  lemma AttackScriptOutcome(w: World, attacker: nat, defender: nat)
    requires attacker in w.fighters && defender in w.fighters
    requires attacker in w.positions && defender in w.positions
    requires attacker != defender
    requires forall id :: id in w.positions ==> id < w.nextId
    ensures var a := w.fighters[attacker];
      var d := w.fighters[defender];
      var damage := AttackDamage(a.strength, d.defense, d.hp);
      var n := w.nextId;
      var o := RunFrom(AttackSteps(w, attacker, defender), map[], 0, w, 3);
      && o.result == Some(OfCode(Exit))
      && o.state.fighters.Keys == w.fighters.Keys
      && o.state.fighters[defender] == d.(hp := HpAfter(d.hp, d.maxHp, damage))
      && o.state.fighters[attacker] == (if a.lifesteal then a.(hp := HpAfter(a.hp, a.maxHp, -damage)) else a)
      && (forall id :: id in w.fighters && id != attacker && id != defender ==> o.state.fighters[id] == w.fighters[id])
      && o.state.positions == (if a.lifesteal
                               then w.positions[n := w.positions[defender].Plus(TextOffset)]
                                               [n + 1 := w.positions[attacker].Plus(TextOffset)]
                               else w.positions[n := w.positions[defender].Plus(TextOffset)])
      && o.state.nextId == n + (if a.lifesteal then 2 else 1)
      && o.state.ordered == w.ordered + (if a.onHitEnemy then [attacker] else [])
  {
    var steps := AttackSteps(w, attacker, defender);
    RunAllContinue(steps, 0, w, 3);
    RunToAfterHit(w, attacker, defender);
    RunLifesteal(w, attacker, defender);
    var h := AfterHit(w, attacker, defender);
    assert h.positions[h.nextId := w.positions[attacker].Plus(TextOffset)]
        == w.positions[w.nextId := w.positions[defender].Plus(TextOffset)]
                      [w.nextId + 1 := w.positions[attacker].Plus(TextOffset)];
  }

  /** An attack on a defender with hp between 1 and its maximum always
      costs it at least one hp and never drops it below zero. */
  lemma AttackHurts(attacker: Fighter, defender: Fighter)
    requires 1 <= defender.hp <= defender.maxHp
    ensures var damage := AttackDamage(attacker.strength, defender.defense, defender.hp);
      0 <= HpAfter(defender.hp, defender.maxHp, damage) < defender.hp
  {
  }
}
