/** The stat system of the Python prototype, stats.py.  entity.py repeats the
    same classes almost verbatim and actor.py builds on this module, so the
    pieces they share live here: stat and attribute values, the fraction
    consume/refund arithmetic, the sheet updates of each modifier class, and
    the sheet fold. */
module PyStats {
  import opened Wrappers

  /** TemperatureModifier.Value: COLD = -10, LUKWARM = 0, HOT = 10. */
  datatype Temp = Cold | Lukwarm | Hot

  /** IntegerStat and FractionStat, the values of StatSheet.stats. */
  datatype Stat =
    | IntegerStat(name: string, value: int, multiplier: real)
    | FractionStat(name: string, n: int, d: int)

  /** The entries of StatSheet.attributes: reason-less copies of temperature
      and regeneration modifiers. */
  datatype Attribute =
    | TempAttr(temp: Temp)
    | RegenAttr(name: string, amount: int, reason: Option<string>)

  /** The value of a StatSheet. */
  datatype Sheet = Sheet(stats: map<string, Stat>, attributes: seq<Attribute>)

  /** The modifier classes: AdditionModifier, FractionalAdditionModifier,
      TemperatureModifier and RegenModifier, the last one declared in
      actor.py and entity.py. */
  datatype ModKind =
    | Addition(name: string, value: int, multiplier: real)
    | Fractional(name: string, n: int, d: int)
    | Temperature(temp: Temp)
    | Regen(name: string, amount: int)

  function Min(a: int, b: int): int { if a < b then a else b }
  function Max(a: int, b: int): int { if a < b then b else a }

  /** The CONSUME action of a fraction: take `acc` out of the numerator `n`,
      never below zero; the result is the new numerator and what is left of
      `acc`. */
  function ConsumeStep(n: int, acc: int): (r: (int, int))
    ensures n - r.0 == acc - r.1
    ensures r.0 >= 0
    ensures r.0 == 0 || r.1 == 0
    ensures 0 <= n && 0 <= acc ==> r.0 <= n && 0 <= r.1 <= acc
  {
    (Max(0, n - acc), acc - Min(n, acc))
  }

  /** The REFUND action of a fraction: give `acc` back to the numerator, never
      above the denominator `d`. */
  function RefundStep(n: int, d: int, acc: int): (r: (int, int))
    ensures r.0 - n == acc - r.1
    ensures r.0 <= d
    ensures r.1 == 0 || r.0 == d
    ensures n <= d && 0 <= acc ==> n <= r.0 && 0 <= r.1 <= acc
  {
    (Min(d, n + acc), acc - Min(acc, d - n))
  }

  /** Refunding what a consume took restores the numerator, when the fraction
      was not overfull. */
  lemma RefundUndoesConsume(n: int, d: int, acc: int)
    requires 0 <= n <= d && 0 <= acc
    ensures RefundStep(ConsumeStep(n, acc).0, d, acc - ConsumeStep(n, acc).1) == (n, 0)
  {
  }

  /** ModifyIncomingDamage of a temperature: COLD halves (true division), HOT
      doubles, LUKWARM keeps the amount. */
  function IncomingDamage(t: Temp, amount: real): (r: real)
    ensures t == Cold ==> 2.0 * r == amount
    ensures t == Hot ==> r == 2.0 * amount
    ensures t == Lukwarm ==> r == amount
  {
    match t
    case Cold => amount / 2.0
    case Hot => amount * 2.0
    case Lukwarm => amount
  }

  /** `int(x)` of a Python float: truncation toward zero. */
  function Truncate(x: real): (r: int)
    ensures 0.0 <= x ==> 0 <= r && r as real <= x < r as real + 1.0
    ensures x < 0.0 ==> r <= 0 && r as real - 1.0 < x <= r as real
  {
    if 0.0 <= x then x.Floor else -((-x).Floor)
  }

  // ---------------------------------------------------------------------
  // Attributes

  /** Which attribute a ModifyStatSheet loop looks for. */
  datatype AttrKey = TempKey | RegenKey(name: string)

  predicate Matches(a: Attribute, key: AttrKey)
  {
    match key
    case TempKey => a.TempAttr?
    case RegenKey(name) => a.RegenAttr? && a.name == name
  }

  /** The index of the first attribute the key matches. */
  function FirstIndex(attrs: seq<Attribute>, key: AttrKey): (r: Option<nat>)
    ensures r.Some? ==> r.value < |attrs| && Matches(attrs[r.value], key)
    ensures r.Some? ==> forall j :: 0 <= j < r.value ==> !Matches(attrs[j], key)
    ensures r.None? ==> forall j :: 0 <= j < |attrs| ==> !Matches(attrs[j], key)
  {
    if attrs == [] then None
    else if Matches(attrs[0], key) then Some(0)
    else match FirstIndex(attrs[1..], key)
      case None => None
      case Some(i) => Some(i + 1)
  }

  /** TemperatureModifier.ModifyStatSheet, as written: the first temperature
      attribute becomes the new temperature if it is LUKWARM and LUKWARM
      otherwise; with no temperature attribute a copy is appended. */
  function MergeTemperature(attrs: seq<Attribute>, t: Temp): (r: seq<Attribute>)
    ensures FirstIndex(r, TempKey).Some?
    ensures var k := FirstIndex(attrs, TempKey);
      r[FirstIndex(r, TempKey).value].temp == (if k.Some? && attrs[k.value].temp != Lukwarm then Lukwarm else t)
    ensures forall j :: 0 <= j < |attrs| && !Matches(attrs[j], TempKey) ==> j < |r| && r[j] == attrs[j]
  {
    match FirstIndex(attrs, TempKey)
    case None =>
      FirstIndexAppend(attrs, TempAttr(t), TempKey);
      attrs + [TempAttr(t)]
    case Some(i) =>
      var a := TempAttr(if attrs[i].temp == Lukwarm then t else Lukwarm);
      FirstIndexUpdate(attrs, i, a, TempKey);
      attrs[i := a]
  }

  /** How the comments above TemperatureModifier.ModifyStatSheet say two
      temperatures combine: hot and cold give lukwarm, lukwarm gives way, and
      a temperature meeting itself stays. */
  function Mix(a: Temp, b: Temp): (r: Temp)
    ensures a == b ==> r == a
    ensures a == Lukwarm ==> r == b
    ensures a != b && a != Lukwarm && b != Lukwarm ==> r == Lukwarm
  {
    if a == Lukwarm then b
    else if b == Lukwarm then a
    else if a == b then a
    else Lukwarm
  }

  /** The merge the comments describe: the existing temperature is mixed with
      the new one. */
  function MergeTemperatureIntended(attrs: seq<Attribute>, t: Temp): (r: seq<Attribute>)
  {
    match FirstIndex(attrs, TempKey)
    case None => attrs + [TempAttr(t)]
    case Some(i) => attrs[i := TempAttr(Mix(attrs[i].temp, t))]
  }

  lemma MixCommutes(a: Temp, b: Temp)
    ensures Mix(a, b) == Mix(b, a)
  {
  }

  /** The two merges agree exactly when the existing attribute is lukwarm or
      the temperatures are hot and cold. */
  lemma MergeTemperatureDiffers(attrs: seq<Attribute>, t: Temp)
    requires FirstIndex(attrs, TempKey).Some?
    ensures var e := attrs[FirstIndex(attrs, TempKey).value].temp;
      (MergeTemperature(attrs, t) == MergeTemperatureIntended(attrs, t))
        <==> (e == Lukwarm || (e != t && t != Lukwarm))
  {
    var i := FirstIndex(attrs, TempKey).value;
    var e := attrs[i].temp;
    if !(e == Lukwarm || (e != t && t != Lukwarm)) {
      assert MergeTemperature(attrs, t)[i] != MergeTemperatureIntended(attrs, t)[i];
    }
  }

  /** HOT onto HOT: as written the sheet turns lukwarm. */
  lemma HotOntoHotAsWritten()
    ensures MergeTemperature([TempAttr(Hot)], Hot) == [TempAttr(Lukwarm)]
    ensures MergeTemperatureIntended([TempAttr(Hot)], Hot) == [TempAttr(Hot)]
  {
    assert FirstIndex([TempAttr(Hot)], TempKey) == Some(0);
  }

  /** Under the intended merge a lukwarm modifier, or one of the temperature
      already on the sheet, leaves the sheet as it is. */
  lemma IntendedMergeKeeps(attrs: seq<Attribute>, t: Temp)
    requires FirstIndex(attrs, TempKey).Some?
    requires t == Lukwarm || attrs[FirstIndex(attrs, TempKey).value].temp == t
    ensures MergeTemperatureIntended(attrs, t) == attrs
  {
    var i := FirstIndex(attrs, TempKey).value;
    assert attrs[i] == TempAttr(attrs[i].temp);
  }

  /** Appending after attributes the key does not match puts the first match
      at the end. */
  lemma FirstIndexAppend(attrs: seq<Attribute>, a: Attribute, key: AttrKey)
    requires FirstIndex(attrs, key).None? && Matches(a, key)
    ensures FirstIndex(attrs + [a], key) == Some(|attrs|)
  {
    forall j | 0 <= j < |attrs|
      ensures !Matches((attrs + [a])[j], key)
    {
      assert (attrs + [a])[j] == attrs[j];
    }
    FirstIndexIs(attrs + [a], key, |attrs|);
  }

  /** Replacing the first match by another match keeps it the first match. */
  lemma FirstIndexUpdate(attrs: seq<Attribute>, i: nat, a: Attribute, key: AttrKey)
    requires FirstIndex(attrs, key) == Some(i) && Matches(a, key)
    ensures FirstIndex(attrs[i := a], key) == Some(i)
  {
    var u := attrs[i := a];
    forall j | 0 <= j < i
      ensures !Matches(u[j], key)
    {
      assert u[j] == attrs[j];
    }
    FirstIndexIs(u, key, i);
  }

  /** A sheet holds at most one temperature attribute. */
  ghost predicate OneTemperature(attrs: seq<Attribute>)
  {
    forall i, j :: 0 <= i < |attrs| && 0 <= j < |attrs| && attrs[i].TempAttr? && attrs[j].TempAttr? ==> i == j
  }

  /** MergeTemperature keeps at most one temperature attribute, leaves one
      behind, and does not touch the other attributes. */
  lemma MergeTemperatureKeepsOne(attrs: seq<Attribute>, t: Temp)
    requires OneTemperature(attrs)
    ensures var r := MergeTemperature(attrs, t);
      OneTemperature(r) && FirstIndex(r, TempKey).Some?
      && forall j :: 0 <= j < |attrs| && !attrs[j].TempAttr? ==> r[j] == attrs[j]
  {
    var r := MergeTemperature(attrs, t);
    match FirstIndex(attrs, TempKey)
    case None =>
      FirstIndexAppend(attrs, TempAttr(t), TempKey);
      forall i, j | 0 <= i < |r| && 0 <= j < |r| && r[i].TempAttr? && r[j].TempAttr?
        ensures i == j
      {
      }
    case Some(k) =>
      FirstIndexUpdate(attrs, k, r[k], TempKey);
      forall i, j | 0 <= i < |r| && 0 <= j < |r| && r[i].TempAttr? && r[j].TempAttr?
        ensures i == j
      {
      }
  }

  /** The total regeneration recorded for `name`. */
  function RegenTotal(attrs: seq<Attribute>, name: string): int
  {
    if attrs == [] then 0
    else RegenTotal(attrs[..|attrs| - 1], name)
         + (if Matches(attrs[|attrs| - 1], RegenKey(name)) then attrs[|attrs| - 1].amount else 0)
  }

  /** RegenModifier.ModifyStatSheet: add to the first regeneration attribute
      of the same name, or append a copy whose reason is `copyReason`
      (entity.py deep-copies the modifier and keeps its reason, actor.py
      builds a new modifier without one). */
  function MergeRegen(attrs: seq<Attribute>, name: string, amount: int, copyReason: Option<string>): (r: seq<Attribute>)
  {
    match FirstIndex(attrs, RegenKey(name))
    case None => attrs + [RegenAttr(name, amount, copyReason)]
    case Some(i) => attrs[i := attrs[i].(amount := attrs[i].amount + amount)]
  }

  lemma {:induction false} RegenTotalUpdate(attrs: seq<Attribute>, i: nat, a: Attribute, name: string)
    requires i < |attrs|
    ensures RegenTotal(attrs[i := a], name)
      == RegenTotal(attrs, name)
         - (if Matches(attrs[i], RegenKey(name)) then attrs[i].amount else 0)
         + (if Matches(a, RegenKey(name)) then a.amount else 0)
    decreases |attrs|
  {
    var last := |attrs| - 1;
    if i < last {
      assert attrs[i := a][..last] == attrs[..last][i := a];
      RegenTotalUpdate(attrs[..last], i, a, name);
    } else {
      assert attrs[i := a][..last] == attrs[..last];
    }
  }

  /** MergeRegen adds `amount` to the total of `name` and leaves every other
      name's total alone. */
  lemma MergeRegenAdds(attrs: seq<Attribute>, name: string, amount: int, copyReason: Option<string>, other: string)
    ensures RegenTotal(MergeRegen(attrs, name, amount, copyReason), name) == RegenTotal(attrs, name) + amount
    ensures other != name ==>
      RegenTotal(MergeRegen(attrs, name, amount, copyReason), other) == RegenTotal(attrs, other)
  {
    var r := MergeRegen(attrs, name, amount, copyReason);
    match FirstIndex(attrs, RegenKey(name))
    case None =>
      assert r[..|r| - 1] == attrs;
    case Some(i) =>
      RegenTotalUpdate(attrs, i, r[i], name);
      RegenTotalUpdate(attrs, i, r[i], other);
  }

  // ---------------------------------------------------------------------
  // Stats

  /** FractionalAdditionModifier.ModifyStatSheet: a new name gets
      FractionStat(n, d); an existing FractionStat gains n and d; an
      IntegerStat of that name has no `n` and the update raises. */
  function AddFraction(s: Sheet, name: string, n: int, d: int): (r: Option<Sheet>)
    ensures r.None? <==> name in s.stats && s.stats[name].IntegerStat?
    ensures r.Some? ==> r.value.attributes == s.attributes
    ensures r.Some? ==> r.value.stats.Keys == s.stats.Keys + {name}
    ensures r.Some? ==> forall k :: k in s.stats && k != name ==> r.value.stats[k] == s.stats[k]
    ensures r.Some? ==> r.value.stats[name].FractionStat?
    ensures r.Some? && name !in s.stats ==> r.value.stats[name] == FractionStat(name, n, d)
    ensures r.Some? && name in s.stats ==>
      r.value.stats[name].n - s.stats[name].n == n && r.value.stats[name].d - s.stats[name].d == d
  {
    if name !in s.stats then
      Some(s.(stats := s.stats[name := FractionStat(name, n, d)]))
    else if s.stats[name].FractionStat? then
      var st := s.stats[name];
      Some(s.(stats := s.stats[name := st.(n := st.n + n, d := st.d + d)]))
    else None
  }

  /** Two fractional modifiers of the same name add up like one whose
      numerator and denominator are the sums. */
  lemma AddFractionAccumulates(s: Sheet, name: string, n1: int, d1: int, n2: int, d2: int)
    requires AddFraction(s, name, n1, d1).Some?
    ensures AddFraction(AddFraction(s, name, n1, d1).value, name, n2, d2)
            == AddFraction(s, name, n1 + n2, d1 + d2)
  {
    var s1 := AddFraction(s, name, n1, d1).value;
    var st := s1.stats[name];
    assert s1.stats[name := st.(n := st.n + n2, d := st.d + d2)]
        == s.stats[name := AddFraction(s, name, n1 + n2, d1 + d2).value.stats[name]];
  }

  /** AdditionModifier.ModifyStatSheet in stats.py: a new name gets an
      IntegerStat; an existing name reads an unbound local and raises. */
  function AddInteger(s: Sheet, name: string, value: int, multiplier: real): (r: Option<Sheet>)
    ensures r.None? <==> name in s.stats
    ensures r.Some? ==> r.value.stats == s.stats[name := IntegerStat(name, value, multiplier)]
    ensures r.Some? ==> r.value.attributes == s.attributes
  {
    if name in s.stats then None
    else Some(s.(stats := s.stats[name := IntegerStat(name, value, multiplier)]))
  }

  /** ModifyStatSheet of each modifier class of stats.py, with actor.py's
      RegenModifier; None where the Python code raises. */
  function ApplyModifier(s: Sheet, k: ModKind): (r: Option<Sheet>)
    ensures r.None? <==> ((k.Addition? && k.name in s.stats)
                          || (k.Fractional? && k.name in s.stats && s.stats[k.name].IntegerStat?))
    ensures r.Some? && (k.Temperature? || k.Regen?) ==> r.value.stats == s.stats
    ensures r.Some? && (k.Addition? || k.Fractional?) ==> r.value.attributes == s.attributes
  {
    match k
    case Addition(name, value, multiplier) => AddInteger(s, name, value, multiplier)
    case Fractional(name, n, d) => AddFraction(s, name, n, d)
    case Temperature(t) => Some(s.(attributes := MergeTemperature(s.attributes, t)))
    case Regen(name, amount) => Some(s.(attributes := MergeRegen(s.attributes, name, amount, None)))
  }

  function Bind(s: Option<Sheet>, k: ModKind): Option<Sheet>
  {
    if s.None? then None else ApplyModifier(s.value, k)
  }

  /** The sheet built by applying the modifiers in order; None as soon as
      one of them raises. */
  function FoldSheet(start: Option<Sheet>, ks: seq<ModKind>): (r: Option<Sheet>)
    ensures start.None? ==> r.None?
  {
    if ks == [] then start
    else Bind(FoldSheet(start, ks[..|ks| - 1]), ks[|ks| - 1])
  }

  lemma {:induction false} FoldSheetAppend(start: Option<Sheet>, a: seq<ModKind>, b: seq<ModKind>)
    ensures FoldSheet(start, a + b) == FoldSheet(FoldSheet(start, a), b)
    decreases |b|
  {
    if b == [] {
      assert a + b == a;
    } else {
      assert (a + b)[..|a + b| - 1] == a + b[..|b| - 1];
      FoldSheetAppend(start, a, b[..|b| - 1]);
    }
  }

  const EmptySheet := Sheet(map[], [])

  /** Every sheet that folding produces holds at most one temperature
      attribute, so incoming damage is scaled at most once. */
  lemma {:induction false} FoldKeepsOneTemperature(ks: seq<ModKind>)
    ensures FoldSheet(Some(EmptySheet), ks).Some? ==> OneTemperature(FoldSheet(Some(EmptySheet), ks).value.attributes)
    decreases |ks|
  {
    if ks != [] {
      var prev := FoldSheet(Some(EmptySheet), ks[..|ks| - 1]);
      FoldKeepsOneTemperature(ks[..|ks| - 1]);
      if prev.Some? {
        var s := prev.value;
        match ks[|ks| - 1]
        case Addition(_, _, _) =>
        case Fractional(_, _, _) =>
        case Temperature(t) => MergeTemperatureKeepsOne(s.attributes, t);
        case Regen(name, amount) => MergeRegenKeepsTemperatures(s.attributes, name, amount, None);
      }
    }
  }

  lemma MergeRegenKeepsTemperatures(attrs: seq<Attribute>, name: string, amount: int, copyReason: Option<string>)
    requires OneTemperature(attrs)
    ensures OneTemperature(MergeRegen(attrs, name, amount, copyReason))
  {
    var r := MergeRegen(attrs, name, amount, copyReason);
    forall i, j | 0 <= i < |r| && 0 <= j < |r| && r[i].TempAttr? && r[j].TempAttr?
      ensures i == j
    {
      assert i < |attrs| && r[i] == attrs[i];
      assert j < |attrs| && r[j] == attrs[j];
    }
  }

  /** The MODIFY_INCOMING_DAMAGE loop of DealDamage over the sheet's
      attributes (only temperatures have the action). */
  function ApplyIncoming(attrs: seq<Attribute>, amount: real): real
  {
    if attrs == [] then amount
    else
      var a := ApplyIncoming(attrs[..|attrs| - 1], amount);
      if attrs[|attrs| - 1].TempAttr? then IncomingDamage(attrs[|attrs| - 1].temp, a) else a
  }

  /** With one temperature attribute the damage is scaled by it once; with
      none it is unchanged. */
  lemma {:induction false} IncomingScaledOnce(attrs: seq<Attribute>, amount: real)
    requires OneTemperature(attrs)
    ensures FirstIndex(attrs, TempKey).None? ==> ApplyIncoming(attrs, amount) == amount
    ensures FirstIndex(attrs, TempKey).Some? ==>
      ApplyIncoming(attrs, amount) == IncomingDamage(attrs[FirstIndex(attrs, TempKey).value].temp, amount)
    decreases |attrs|
  {
    if attrs != [] {
      var init := attrs[..|attrs| - 1];
      assert OneTemperature(init) by {
        forall i, j | 0 <= i < |init| && 0 <= j < |init| && init[i].TempAttr? && init[j].TempAttr?
          ensures i == j
        {
          assert attrs[i] == init[i] && attrs[j] == init[j];
        }
      }
      IncomingScaledOnce(init, amount);
      var last := |attrs| - 1;
      if attrs[last].TempAttr? {
        forall j | 0 <= j < last
          ensures !Matches(attrs[j], TempKey) && !Matches(init[j], TempKey)
        {
          assert init[j] == attrs[j];
        }
        FirstIndexIs(init, TempKey, |init|);
        FirstIndexIs(attrs, TempKey, last);
      } else {
        match FirstIndex(init, TempKey)
        case None =>
          forall j | 0 <= j < last
            ensures !Matches(attrs[j], TempKey)
          {
            assert init[j] == attrs[j];
          }
          FirstIndexIs(attrs, TempKey, |attrs|);
        case Some(x) =>
          forall j | 0 <= j <= x
            ensures attrs[j] == init[j]
          {
          }
          FirstIndexIs(attrs, TempKey, x);
      }
    }
  }

  // ---------------------------------------------------------------------
  // Objects

  /** StatSheet: the `stats` dict and the `attributes` list. */
  class StatSheet {
    var stats: map<string, Stat>
    var attributes: seq<Attribute>

    constructor ()
      ensures Value() == EmptySheet
    {
      stats := map[];
      attributes := [];
    }

    function Value(): Sheet
      reads this
    {
      Sheet(stats, attributes)
    }
  }

  /** A modifier object: its class and fields, its reason and its parent.
      The fraction's numerator is updated in place by CONSUME and REFUND. */
  class Modifier {
    var kind: ModKind
    var reason: Option<string>
    var parent: object?

    constructor (kind: ModKind, reason: Option<string>)
      ensures this.kind == kind && this.reason == reason && parent == null
    {
      this.kind := kind;
      this.reason := reason;
      parent := null;
    }

    /** The Consume closure of FractionalAdditionModifier. */
    method Consume(stat: string, acc: int) returns (left: int)
      requires kind.Fractional?
      modifies this
      ensures stat != old(kind).name ==> left == acc && kind == old(kind)
      ensures stat == old(kind).name ==>
        kind == old(kind).(n := ConsumeStep(old(kind).n, acc).0) && left == ConsumeStep(old(kind).n, acc).1
      ensures reason == old(reason) && parent == old(parent)
    {
      if stat != kind.name {
        return acc;
      }
      var rest := Max(0, kind.n - acc);
      left := acc - Min(kind.n, acc);
      kind := kind.(n := rest);
    }

    /** The Refund closure of FractionalAdditionModifier. */
    method Refund(stat: string, acc: int) returns (left: int)
      requires kind.Fractional?
      modifies this
      ensures stat != old(kind).name ==> left == acc && kind == old(kind)
      ensures stat == old(kind).name ==>
        kind == old(kind).(n := RefundStep(old(kind).n, old(kind).d, acc).0)
        && left == RefundStep(old(kind).n, old(kind).d, acc).1
      ensures reason == old(reason) && parent == old(parent)
    {
      if stat != kind.name {
        return acc;
      }
      var have := Min(kind.d, kind.n + acc);
      left := acc - Min(acc, kind.d - kind.n);
      kind := kind.(n := have);
    }
  }

  /** `bool(value) ^ bool(multiplier)`, the assertion of the stats.py
      AdditionModifier constructor, whose multiplier defaults to None. */
  predicate AdditionAccepts(value: int, multiplier: Option<real>)
  {
    (value != 0) != (multiplier.Some? && multiplier.value != 0.0)
  }

  /** `multiplier or 1`. */
  function StoredMultiplier(multiplier: Option<real>): (m: real)
    ensures m != 0.0
    ensures multiplier.Some? && multiplier.value != 0.0 ==> m == multiplier.value
  {
    if multiplier.Some? && multiplier.value != 0.0 then multiplier.value else 1.0
  }

  /** Without a multiplier the constructor needs a non-zero value and stores
      multiplier 1; with a non-zero multiplier it needs value 0. */
  lemma AdditionDefaults(value: int, m: real)
    ensures AdditionAccepts(value, None) <==> value != 0
    ensures StoredMultiplier(None) == 1.0
    ensures m != 0.0 ==> (AdditionAccepts(value, Some(m)) <==> value == 0)
  {
  }

  /** The AdditionModifier constructor: None where the assertion fails. */
  method NewAddition(name: string, value: int, multiplier: Option<real>, reason: Option<string>)
    returns (r: Option<Modifier>)
    ensures r.Some? <==> AdditionAccepts(value, multiplier)
    ensures r.Some? ==> fresh(r.value) && r.value.parent == null && r.value.reason == reason
    ensures r.Some? ==> r.value.kind == Addition(name, value, StoredMultiplier(multiplier))
  {
    if !AdditionAccepts(value, multiplier) {
      return None;
    }
    var m := new Modifier(Addition(name, value, StoredMultiplier(multiplier)), reason);
    r := Some(m);
  }

  /** The `for i, a in enumerate(sheet.attributes)` search of a
      ModifyStatSheet method. */
  method FindAttribute(attrs: seq<Attribute>, key: AttrKey) returns (r: Option<nat>)
    ensures r == FirstIndex(attrs, key)
  {
    var i := 0;
    while i < |attrs|
      invariant 0 <= i <= |attrs|
      invariant forall j :: 0 <= j < i ==> !Matches(attrs[j], key)
    {
      if Matches(attrs[i], key) {
        FirstIndexIs(attrs, key, i);
        return Some(i);
      }
      i := i + 1;
    }
    FirstIndexIs(attrs, key, |attrs|);
    r := None;
  }

  /** FirstIndex is the first index whose attribute matches. */
  lemma {:induction false} FirstIndexIs(attrs: seq<Attribute>, key: AttrKey, i: nat)
    requires i <= |attrs|
    requires forall j :: 0 <= j < i ==> !Matches(attrs[j], key)
    requires i < |attrs| ==> Matches(attrs[i], key)
    ensures FirstIndex(attrs, key) == if i < |attrs| then Some(i) else None
  {
  }

  /** TemperatureModifier.ModifyStatSheet on a sheet object. */
  method MergeTemperatureInto(sheet: StatSheet, t: Temp)
    modifies sheet
    ensures sheet.stats == old(sheet.stats)
    ensures sheet.attributes == MergeTemperature(old(sheet.attributes), t)
  {
    var i := FindAttribute(sheet.attributes, TempKey);
    if i.Some? {
      var a := sheet.attributes[i.value];
      if a.temp == Lukwarm {
        sheet.attributes := sheet.attributes[i.value := TempAttr(t)];
      } else {
        sheet.attributes := sheet.attributes[i.value := TempAttr(Lukwarm)];
      }
      return;
    }
    sheet.attributes := sheet.attributes + [TempAttr(t)];
  }

  /** RegenModifier.ModifyStatSheet on a sheet object. */
  method MergeRegenInto(sheet: StatSheet, name: string, amount: int, copyReason: Option<string>)
    modifies sheet
    ensures sheet.stats == old(sheet.stats)
    ensures sheet.attributes == MergeRegen(old(sheet.attributes), name, amount, copyReason)
  {
    var i := FindAttribute(sheet.attributes, RegenKey(name));
    if i.Some? {
      var a := sheet.attributes[i.value];
      sheet.attributes := sheet.attributes[i.value := a.(amount := a.amount + amount)];
      return;
    }
    sheet.attributes := sheet.attributes + [RegenAttr(name, amount, copyReason)];
  }

  /** FractionalAdditionModifier.ModifyStatSheet on a sheet object; false
      where the update raises. */
  method AddFractionInto(sheet: StatSheet, name: string, n: int, d: int) returns (ok: bool)
    modifies sheet
    ensures ok == AddFraction(old(sheet.Value()), name, n, d).Some?
    ensures ok ==> sheet.Value() == AddFraction(old(sheet.Value()), name, n, d).value
    ensures !ok ==> sheet.Value() == old(sheet.Value())
  {
    if name !in sheet.stats {
      sheet.stats := sheet.stats[name := FractionStat(name, n, d)];
      return true;
    }
    var st := sheet.stats[name];
    if st.IntegerStat? {
      return false;
    }
    sheet.stats := sheet.stats[name := st.(n := st.n + n, d := st.d + d)];
    ok := true;
  }

  /** `m.ModifyStatSheet(sheet)` for the classes of stats.py and actor.py's
      RegenModifier; false where it raises, and then the sheet is unchanged. */
  method ModifyStatSheet(m: Modifier, sheet: StatSheet) returns (ok: bool)
    modifies sheet
    ensures ok == ApplyModifier(old(sheet.Value()), m.kind).Some?
    ensures ok ==> sheet.Value() == ApplyModifier(old(sheet.Value()), m.kind).value
    ensures !ok ==> sheet.Value() == old(sheet.Value())
  {
    match m.kind
    case Addition(name, value, multiplier) =>
      if name in sheet.stats {
        return false;
      }
      sheet.stats := sheet.stats[name := IntegerStat(name, value, multiplier)];
      ok := true;
    case Fractional(name, n, d) =>
      ok := AddFractionInto(sheet, name, n, d);
    case Temperature(t) =>
      MergeTemperatureInto(sheet, t);
      ok := true;
    case Regen(name, amount) =>
      MergeRegenInto(sheet, name, amount, None);
      ok := true;
  }

  // ---------------------------------------------------------------------
  // Consuming damage through the HP fractions

  /** The stat name DealDamage consumes from. */
  const Hp := "HP"

  predicate IsHp(k: ModKind)
  {
    k.Fractional? && k.name == Hp
  }

  /** `k2` is `k1`, or, where `k1` is an HP fraction, `k1` with another
      numerator. */
  predicate SameButHpN(k1: ModKind, k2: ModKind)
  {
    k1 == k2 || (IsHp(k1) && k2.Fractional? && k2 == k1.(n := k2.n))
  }

  /** The numerator of every HP fraction among `mods`, by object. */
  ghost function HpPools(mods: seq<Modifier>): (p: map<Modifier, int>)
    reads mods
    ensures PoolsAgree(mods, p)
  {
    map m | m in mods && IsHp(m.kind) :: m.kind.n
  }

  /** `pools` holds exactly the HP fractions among `mods`, with their current
      numerators. */
  ghost predicate PoolsAgree(mods: seq<Modifier>, pools: map<Modifier, int>)
    reads mods
  {
    forall m :: m in mods ==> (m in pools <==> IsHp(m.kind)) && (m in pools ==> pools[m] == m.kind.n)
  }

  /** The CONSUME loop of DealDamage: each modifier in turn takes what it can
      from the amount; a modifier met twice is the same object both times. */
  function ConsumeThrough(mods: seq<Modifier>, pools: map<Modifier, int>, acc: int): (r: (map<Modifier, int>, int))
    decreases |mods|
  {
    if mods == [] then (pools, acc)
    else if mods[0] in pools then
      var step := ConsumeStep(pools[mods[0]], acc);
      ConsumeThrough(mods[1..], pools[mods[0] := step.0], step.1)
    else ConsumeThrough(mods[1..], pools, acc)
  }

  /** Only the pools of the modifiers consumed through can change. */
  lemma {:induction false} ConsumeThroughFrame(mods: seq<Modifier>, pools: map<Modifier, int>, acc: int)
    ensures ConsumeThrough(mods, pools, acc).0.Keys == pools.Keys
    ensures forall m :: m in pools && m !in mods ==> ConsumeThrough(mods, pools, acc).0[m] == pools[m]
    decreases |mods|
  {
    if mods != [] {
      if mods[0] in pools {
        var step := ConsumeStep(pools[mods[0]], acc);
        ConsumeThroughFrame(mods[1..], pools[mods[0] := step.0], step.1);
      } else {
        ConsumeThroughFrame(mods[1..], pools, acc);
      }
    }
  }

  /** Damage is absorbed in full unless every HP pool it passes is emptied,
      and with non-negative pools the amount only shrinks. */
  lemma {:induction false} ConsumeThroughAbsorbs(mods: seq<Modifier>, pools: map<Modifier, int>, acc: int)
    requires 0 <= acc
    requires forall m :: m in pools ==> 0 <= pools[m]
    ensures var r := ConsumeThrough(mods, pools, acc);
      && r.0.Keys == pools.Keys
      && 0 <= r.1 <= acc
      && (forall m :: m in r.0 ==> 0 <= r.0[m])
      && (r.1 == 0 || forall m :: m in mods && m in pools ==> r.0[m] == 0)
    decreases |mods|
  {
    ConsumeThroughFrame(mods, pools, acc);
    if mods != [] {
      var m0 := mods[0];
      var rest := mods[1..];
      var r := ConsumeThrough(mods, pools, acc);
      if m0 in pools {
        var step := ConsumeStep(pools[m0], acc);
        var p1 := pools[m0 := step.0];
        ConsumeThroughAbsorbs(rest, p1, step.1);
        ConsumeThroughFrame(rest, p1, step.1);
        assert r == ConsumeThrough(rest, p1, step.1);
        if r.1 != 0 {
          forall m | m in mods && m in pools
            ensures r.0[m] == 0
          {
            if m != m0 {
              assert m in rest;
            } else if m0 !in rest {
              assert r.0[m0] == p1[m0] == step.0;
            }
          }
        }
      } else {
        ConsumeThroughAbsorbs(rest, pools, acc);
        if r.1 != 0 {
          forall m | m in mods && m in pools
            ensures r.0[m] == 0
          {
            assert m in rest;
          }
        }
      }
    }
  }

  /** The nested CONSUME loop of DealDamage over one holder's modifiers:
      every fraction is asked to consume from "HP", and only HP fractions
      change. */
  method ConsumeAll(mods: seq<Modifier>, amount: int, ghost pools: map<Modifier, int>) returns (left: int)
    requires PoolsAgree(mods, pools)
    modifies set m | m in mods
    ensures left == ConsumeThrough(mods, pools, amount).1
    ensures PoolsAgree(mods, ConsumeThrough(mods, pools, amount).0)
    ensures forall m :: m in mods ==> SameButHpN(old(m.kind), m.kind)
    ensures forall m :: m in mods ==> m.reason == old(m.reason) && m.parent == old(m.parent)
  {
    left := amount;
    ghost var cur := pools;
    var i := 0;
    while i < |mods|
      invariant 0 <= i <= |mods|
      invariant ConsumeThrough(mods[i..], cur, left) == ConsumeThrough(mods, pools, amount)
      invariant PoolsAgree(mods, cur)
      invariant forall m :: m in mods ==> SameButHpN(old(m.kind), m.kind)
      invariant forall m :: m in mods ==> m.reason == old(m.reason) && m.parent == old(m.parent)
    {
      var m := mods[i];
      assert mods[i..][1..] == mods[i + 1..];
      if m.kind.Fractional? {
        ghost var before := left;
        left := m.Consume(Hp, left);
        if m in cur {
          cur := cur[m := ConsumeStep(cur[m], before).0];
        }
      }
      i := i + 1;
    }
  }
}
