/** entity.py: the stat classes of stats.py again (with two differences in
    AdditionModifier and a RegenModifier that deep-copies itself), plus items
    that hold modifiers, actors that hold items, and DealDamage. */
module PyEntity {
  import opened Wrappers
  import opened PyStats

  /** `bool(value) ^ bool(multiplier)`, with entity.py's multiplier default 1
      stored as given. */
  predicate EntityAdditionAccepts(value: int, multiplier: real)
  {
    (value != 0) != (multiplier != 0.0)
  }

  /** With the default multiplier the constructor only accepts value 0, so an
      additive modifier cannot be built without passing multiplier 0. */
  lemma DefaultMultiplierOnlyZero(value: int)
    ensures EntityAdditionAccepts(value, 1.0) <==> value == 0
    ensures EntityAdditionAccepts(value, 0.0) <==> value != 0
  {
  }

  /** The AdditionModifier constructor of entity.py: None where the assertion
      fails. */
  method NewEntityAddition(name: string, value: int, multiplier: real, reason: Option<string>)
    returns (r: Option<Modifier>)
    ensures r.Some? <==> EntityAdditionAccepts(value, multiplier)
    ensures r.Some? ==> fresh(r.value) && r.value.parent == null && r.value.reason == reason
    ensures r.Some? ==> r.value.kind == Addition(name, value, multiplier)
  {
    if !EntityAdditionAccepts(value, multiplier) {
      return None;
    }
    var m := new Modifier(Addition(name, value, multiplier), reason);
    r := Some(m);
  }

  /** What the sheet fold sees of a modifier. */
  datatype ModVal = ModVal(kind: ModKind, reason: Option<string>)

  /** ModifyStatSheet of the entity.py classes: AdditionModifier calls
      `sheet.stats()`, a dict, and always raises; RegenModifier appends a
      deep copy that keeps its reason. */
  function ApplyEntityModifier(s: Sheet, v: ModVal): (r: Option<Sheet>)
    ensures r.None? <==> (v.kind.Addition?
                          || (v.kind.Fractional? && v.kind.name in s.stats && s.stats[v.kind.name].IntegerStat?))
    ensures r.Some? && v.kind.Fractional? ==> r.value == AddFraction(s, v.kind.name, v.kind.n, v.kind.d).value
    ensures r.Some? && v.kind.Regen? ==> r.value.stats == s.stats
  {
    match v.kind
    case Addition(_, _, _) => None
    case Fractional(name, n, d) => AddFraction(s, name, n, d)
    case Temperature(t) => Some(s.(attributes := MergeTemperature(s.attributes, t)))
    case Regen(name, amount) => Some(s.(attributes := MergeRegen(s.attributes, name, amount, v.reason)))
  }

  function EntityBind(s: Option<Sheet>, v: ModVal): Option<Sheet>
  {
    if s.None? then None else ApplyEntityModifier(s.value, v)
  }

  function FoldEntitySheet(start: Option<Sheet>, vs: seq<ModVal>): (r: Option<Sheet>)
    ensures start.None? ==> r.None?
  {
    if vs == [] then start
    else EntityBind(FoldEntitySheet(start, vs[..|vs| - 1]), vs[|vs| - 1])
  }

  lemma {:induction false} FoldEntityAppend(start: Option<Sheet>, a: seq<ModVal>, b: seq<ModVal>)
    ensures FoldEntitySheet(start, a + b) == FoldEntitySheet(FoldEntitySheet(start, a), b)
    decreases |b|
  {
    if b == [] {
      assert a + b == a;
    } else {
      assert (a + b)[..|a + b| - 1] == a + b[..|b| - 1];
      FoldEntityAppend(start, a, b[..|b| - 1]);
    }
  }

  ghost predicate OnlyFractions(s: Sheet)
  {
    forall k :: k in s.stats ==> s.stats[k].FractionStat?
  }

  /** In entity.py no IntegerStat is ever created, so building a sheet fails
      exactly when some modifier is an AdditionModifier. */
  lemma {:induction false} EntityStatsFailIffAddition(vs: seq<ModVal>)
    ensures FoldEntitySheet(Some(EmptySheet), vs).None? <==> exists i :: 0 <= i < |vs| && vs[i].kind.Addition?
    ensures FoldEntitySheet(Some(EmptySheet), vs).Some? ==> OnlyFractions(FoldEntitySheet(Some(EmptySheet), vs).value)
    decreases |vs|
  {
    if vs != [] {
      var init := vs[..|vs| - 1];
      var last := vs[|vs| - 1];
      EntityStatsFailIffAddition(init);
      if exists i :: 0 <= i < |init| && init[i].kind.Addition? {
        var i :| 0 <= i < |init| && init[i].kind.Addition?;
        assert vs[i] == init[i];
      } else if !last.kind.Addition? {
        forall i | 0 <= i < |vs|
          ensures !vs[i].kind.Addition?
        {
          if i < |init| { assert vs[i] == init[i]; }
        }
      }
    }
  }

  /** An entity.py Item: a name, its modifiers and its holder. */
  class Item {
    const name: string
    var modifiers: seq<Modifier>
    var parent: object?

    constructor (name: string)
      ensures this.name == name && modifiers == [] && parent == null
    {
      this.name := name;
      modifiers := [];
      parent := null;
    }

    /** Item.AddModifier: the item becomes the modifier's parent and the
        modifier is appended once. */
    method AddModifier(mod: Modifier)
      modifies this, mod
      ensures mod.parent == this && mod.kind == old(mod.kind) && mod.reason == old(mod.reason)
      ensures modifiers == old(modifiers) + [mod]
      ensures parent == old(parent)
    {
      mod.parent := this;
      modifiers := modifiers + [mod];
    }
  }

  function Concat<T>(ss: seq<seq<T>>): seq<T>
  {
    if ss == [] then [] else Concat(ss[..|ss| - 1]) + ss[|ss| - 1]
  }

  lemma {:induction false} ConcatAppend<T>(a: seq<seq<T>>, b: seq<seq<T>>)
    ensures Concat(a + b) == Concat(a) + Concat(b)
    decreases |b|
  {
    if b == [] {
      assert a + b == a;
    } else {
      var front := b[..|b| - 1];
      var last := b[|b| - 1];
      assert (a + b)[..|a + b| - 1] == a + front;
      assert (a + b)[|a + b| - 1] == last;
      assert Concat(a + b) == Concat(a + front) + last;
      ConcatAppend(a, front);
      assert Concat(b) == Concat(front) + last;
      assert (Concat(a) + Concat(front)) + last == Concat(a) + (Concat(front) + last);
    }
  }

  /** Taking one more list appends it. */
  lemma ConcatStep<T>(ss: seq<seq<T>>, i: nat)
    requires i < |ss|
    ensures Concat(ss[..i + 1]) == Concat(ss[..i]) + ss[i]
  {
    assert ss[..i + 1][..i] == ss[..i];
  }

  /** One more step of the sheet fold over a prefix of `vals`. */
  lemma FoldPrefixStep(start: Sheet, vals: seq<ModVal>, p: nat, s: Sheet)
    requires p < |vals|
    requires FoldEntitySheet(Some(start), vals[..p]) == Some(s)
    ensures FoldEntitySheet(Some(start), vals[..p + 1]) == ApplyEntityModifier(s, vals[p])
    ensures ApplyEntityModifier(s, vals[p]).None? ==> FoldEntitySheet(Some(start), vals).None?
  {
    var q := vals[..p + 1];
    assert q[..|q| - 1] == vals[..p] && q[|q| - 1] == vals[p];
    assert FoldEntitySheet(Some(start), q) == EntityBind(Some(s), vals[p]);
    if ApplyEntityModifier(s, vals[p]).None? {
      assert vals == vals[..p + 1] + vals[p + 1..];
      FoldFailedPrefix(Some(start), vals[..p + 1], vals[p + 1..]);
    }
  }

  /** Once the fold has failed it stays failed. */
  lemma FoldFailedPrefix(start: Option<Sheet>, a: seq<ModVal>, b: seq<ModVal>)
    requires FoldEntitySheet(start, a).None?
    ensures FoldEntitySheet(start, a + b).None?
  {
    FoldEntityAppend(start, a, b);
  }

  /** The modifier list of each item. */
  function ModLists(items: seq<Item>): (ls: seq<seq<Modifier>>)
    reads items
    ensures |ls| == |items|
    ensures forall i :: 0 <= i < |items| ==> ls[i] == items[i].modifiers
  {
    seq(|items|, i requires 0 <= i < |items| reads items => items[i].modifiers)
  }

  /** The modifiers of the items, item by item. */
  function AllMods(items: seq<Item>): seq<Modifier>
    reads items
  {
    Concat(ModLists(items))
  }

  function ValsOf(mods: seq<Modifier>): (vs: seq<ModVal>)
    reads mods
    ensures |vs| == |mods|
    ensures forall i :: 0 <= i < |mods| ==> vs[i] == ModVal(mods[i].kind, mods[i].reason)
  {
    seq(|mods|, k requires 0 <= k < |mods| reads mods => ModVal(mods[k].kind, mods[k].reason))
  }

  lemma ValsOfAppend(a: seq<Modifier>, b: seq<Modifier>)
    ensures ValsOf(a + b) == ValsOf(a) + ValsOf(b)
  {
  }

  /** The values of the first i + 1 lists are those of the first i, then
      those of list i. */
  lemma ValsOfStep(lists: seq<seq<Modifier>>, i: nat)
    requires i < |lists|
    ensures ValsOf(Concat(lists[..i + 1])) == ValsOf(Concat(lists[..i])) + ValsOf(lists[i])
  {
    ConcatStep(lists, i);
    ValsOfAppend(Concat(lists[..i]), lists[i]);
  }

  lemma ValsOfSplit(lists: seq<seq<Modifier>>, i: nat)
    requires i <= |lists|
    ensures ValsOf(Concat(lists)) == ValsOf(Concat(lists[..i])) + ValsOf(Concat(lists[i..]))
  {
    assert lists == lists[..i] + lists[i..];
    ConcatAppend(lists[..i], lists[i..]);
    ValsOfAppend(Concat(lists[..i]), Concat(lists[i..]));
  }

  /** One item's step of Actor.Stats: folding its modifiers onto the sheet of
      the items before it gives the sheet of the items up to it, and a failure
      there fails the whole fold. */
  lemma StatsStep(lists: seq<seq<Modifier>>, i: nat, before: Sheet)
    requires i < |lists|
    requires FoldEntitySheet(Some(EmptySheet), ValsOf(Concat(lists[..i]))) == Some(before)
    ensures FoldEntitySheet(Some(EmptySheet), ValsOf(Concat(lists[..i + 1])))
            == FoldEntitySheet(Some(before), ValsOf(lists[i]))
    ensures FoldEntitySheet(Some(before), ValsOf(lists[i])).None?
            ==> FoldEntitySheet(Some(EmptySheet), ValsOf(Concat(lists))).None?
  {
    ValsOfStep(lists, i);
    FoldEntityAppend(Some(EmptySheet), ValsOf(Concat(lists[..i])), ValsOf(lists[i]));
    if FoldEntitySheet(Some(before), ValsOf(lists[i])).None? {
      ValsOfSplit(lists, i + 1);
      FoldFailedPrefix(Some(EmptySheet), ValsOf(Concat(lists[..i + 1])), ValsOf(Concat(lists[i + 1..])));
    }
  }

  /** An entity.py Actor: a name and an inventory of items. */
  class Actor {
    const name: string
    var inventory: seq<Item>

    constructor (name: string)
      ensures this.name == name && inventory == []
    {
      this.name := name;
      inventory := [];
    }

    /** Actor.PickUp: sets the holder and appends; the previous holder's
        inventory is not touched. */
    method PickUp(item: Item)
      modifies this, item
      ensures item.parent == this && item.modifiers == old(item.modifiers)
      ensures inventory == old(inventory) + [item]
    {
      item.parent := this;
      inventory := inventory + [item];
    }

    /** The sheet Stats() builds: every modifier of every item, in order. */
    function SheetOf(): Option<Sheet>
      reads this, inventory, AllMods(inventory)
    {
      FoldEntitySheet(Some(EmptySheet), ValsOf(AllMods(inventory)))
    }

    /** Actor.Stats: folds each item's modifiers into a fresh sheet; None
        where a ModifyStatSheet raises. */
    method Stats() returns (r: Option<Sheet>)
      ensures r == SheetOf()
    {
      var sheet := new StatSheet();
      var items := inventory;
      ghost var lists := ModLists(items);
      var i := 0;
      while i < |items|
        invariant 0 <= i <= |items|
        invariant FoldEntitySheet(Some(EmptySheet), ValsOf(Concat(lists[..i]))) == Some(sheet.Value())
        invariant ModLists(inventory) == lists
      {
        ghost var before := sheet.Value();
        label Before:
        var ok := ApplyMods(items[i].modifiers, sheet);
        assert ValsOf(Concat(lists[..i])) == old@Before(ValsOf(Concat(lists[..i])));
        assert ModLists(inventory) == old@Before(ModLists(inventory));
        StatsStep(lists, i, before);
        if !ok {
          return None;
        }
        i := i + 1;
      }
      assert lists[..i] == lists;
      r := Some(sheet.Value());
    }
  }

  /** The inner loop of Actor.Stats: each modifier of one item in turn,
      stopping at the first that raises. */
  method ApplyMods(mods: seq<Modifier>, sheet: StatSheet) returns (ok: bool)
    modifies sheet
    ensures ok == FoldEntitySheet(Some(old(sheet.Value())), ValsOf(mods)).Some?
    ensures ok ==> Some(sheet.Value()) == FoldEntitySheet(Some(old(sheet.Value())), ValsOf(mods))
  {
    ghost var start := sheet.Value();
    ghost var vals := ValsOf(mods);
    var j := 0;
    while j < |mods|
      invariant 0 <= j <= |mods|
      invariant FoldEntitySheet(Some(start), vals[..j]) == Some(sheet.Value())
    {
      ghost var before := sheet.Value();
      FoldPrefixStep(start, vals, j, before);
      ok := EntityModifyStatSheet(mods[j], sheet);
      if !ok {
        assert ValsOf(mods) == vals;
        return;
      }
      j := j + 1;
    }
    assert vals[..j] == vals;
    assert ValsOf(mods) == vals;
    ok := true;
  }

  /** `m.ModifyStatSheet(sheet)` for the classes of entity.py; false where it
      raises, and then the sheet is unchanged. */
  method EntityModifyStatSheet(m: Modifier, sheet: StatSheet) returns (ok: bool)
    modifies sheet
    ensures ok == ApplyEntityModifier(old(sheet.Value()), ModVal(m.kind, m.reason)).Some?
    ensures ok ==> sheet.Value() == ApplyEntityModifier(old(sheet.Value()), ModVal(m.kind, m.reason)).value
    ensures !ok ==> sheet.Value() == old(sheet.Value())
  {
    match m.kind
    case Addition(_, _, _) =>
      ok := false;
    case Fractional(name, n, d) =>
      ok := AddFractionInto(sheet, name, n, d);
    case Temperature(t) =>
      MergeTemperatureInto(sheet, t);
      ok := true;
    case Regen(name, amount) =>
      MergeRegenInto(sheet, name, amount, m.reason);
      ok := true;
  }

  /** The damage left after the incoming-damage attributes of `attrs`, as
      `int` truncates it. */
  function ScaledDamage(attrs: seq<Attribute>, amount: real): int
  {
    Truncate(ApplyIncoming(attrs, amount))
  }

  /** The first loop of DealDamage: every attribute with a
      MODIFY_INCOMING_DAMAGE action, in order, rescales the amount. */
  method ResolveIncoming(attrs: seq<Attribute>, amount: real) returns (a: real)
    ensures a == ApplyIncoming(attrs, amount)
  {
    a := amount;
    var i := 0;
    while i < |attrs|
      invariant 0 <= i <= |attrs|
      invariant a == ApplyIncoming(attrs[..i], amount)
    {
      assert attrs[..i + 1][..i] == attrs[..i];
      if attrs[i].TempAttr? {
        a := IncomingDamage(attrs[i].temp, a);
      }
      i := i + 1;
    }
    assert attrs[..i] == attrs;
  }

  /** entity.py's DealDamage: build the actor's sheet (false where that
      raises), scale the amount by its incoming-damage attributes, truncate,
      and let every modifier of every held item, in inventory order, consume
      from "HP". `left` is what no pool absorbed. */
  method DealDamage(actor: Actor, amount: int) returns (ok: bool, ghost left: int)
    modifies set m | m in AllMods(actor.inventory)
    ensures AllMods(actor.inventory) == old(AllMods(actor.inventory))
    ensures ok == old(actor.SheetOf()).Some?
    ensures ok ==>
      var all := old(AllMods(actor.inventory));
      var r := ConsumeThrough(all, old(HpPools(all)), ScaledDamage(old(actor.SheetOf()).value.attributes, amount as real));
      left == r.1 && PoolsAgree(all, r.0)
    ensures forall m :: m in AllMods(actor.inventory) && old(allocated(m)) ==> SameButHpN(old(m.kind), m.kind)
    ensures forall m :: m in AllMods(actor.inventory) && old(allocated(m)) ==>
      m.reason == old(m.reason) && m.parent == old(m.parent)
    ensures !ok ==> forall m :: m in AllMods(actor.inventory) && old(allocated(m)) ==> m.kind == old(m.kind)
  {
    ghost var before := actor.SheetOf();
    var all := AllMods(actor.inventory);
    var sheet := actor.Stats();
    assert actor.SheetOf() == before by {
      assert ModLists(actor.inventory) == old(ModLists(actor.inventory));
      assert ValsOf(all) == old(ValsOf(all));
    }
    if sheet.None? {
      return false, amount;
    }
    var a := ResolveIncoming(sheet.value.attributes, amount as real);
    label Consume:
    left := ConsumeAll(all, Truncate(a), HpPools(all));
    assert ModLists(actor.inventory) == old@Consume(ModLists(actor.inventory));
    ok := true;
  }

  /** With non-negative pools and a non-negative scaled amount, DealDamage
      is absorbed in full unless every HP pool of the actor is emptied, and
      no pool goes negative. */
  lemma DealDamageAbsorbs(all: seq<Modifier>, pools: map<Modifier, int>, attrs: seq<Attribute>, amount: real)
    requires forall m :: m in pools ==> 0 <= pools[m]
    requires 0 <= ScaledDamage(attrs, amount)
    ensures var r := ConsumeThrough(all, pools, ScaledDamage(attrs, amount));
      && r.0.Keys == pools.Keys
      && 0 <= r.1 <= ScaledDamage(attrs, amount)
      && (forall m :: m in r.0 ==> 0 <= r.0[m])
      && (r.1 == 0 || forall m :: m in all && m in pools ==> r.0[m] == 0)
  {
    ConsumeThroughAbsorbs(all, pools, ScaledDamage(attrs, amount));
  }
}
