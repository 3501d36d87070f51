/** damage.py: an earlier copy of actor.py's damage functions. Its
    DealDamage reads each child's `stat_sheet`, which no entity can hold, so
    with the entity of actor.py it only ever succeeds on an actor with no
    children. */
module PyDamage {
  import opened Wrappers
  import opened PyStats
  import opened PyActor

  const StatSheetKey := "stat_sheet"

  /** `i.stat_sheet.stats` on a child: Get raises AttributeError when there
      is no such component, and neither kind of component value has a
      `stats` attribute, so the lookup raises either way. */
  function ChildStats(c: Entity): (r: Result<map<string, Stat>, PyError>)
    reads c
    ensures r.Failure? && r.error == AttributeError
  {
    match c.Get(StatSheetKey)
    case Failure(e) => Failure(e)
    case Success(ModList(_)) => Failure(AttributeError)
    case Success(Datum(_)) => Failure(AttributeError)
  }

  /** DealDamage as written: the actor's sheet scales the amount, then the
      first child's `stat_sheet` lookup raises before anything is consumed.
      None where Stats raises, Some(AttributeError) where a child does, and
      Some of nothing only for a childless actor. */
  method DealDamage(actor: Entity, amount: real) returns (r: Option<Result<(), PyError>>)
    ensures r.None? <==> old(actor.SheetOf()).None?
    ensures r.Some? && r.value.Failure? ==> r.value.error == AttributeError
    ensures r.Some? ==> (r.value.Success? <==> actor.children == [])
  {
    var sheet := actor.Stats();
    SheetUnchanged(actor);
    if sheet.None? {
      return None;
    }
    var a := PyEntity.ResolveIncoming(sheet.value.attributes, amount);
    var scaled := Truncate(a);
    if actor.children != [] {
      var st := ChildStats(actor.children[0]);
      return Some(Failure(st.error));
    }
    r := Some(Success(()));
  }

  /** DamageVector.DealDamage as written: the sheet, the sum of the damages
      as ResolveAmount computes them, then DealDamage. None where Stats
      raises. */
  method DealDamageVector(defender: Entity, damages: seq<Damage>) returns (r: Option<Result<int, PyError>>)
    ensures r.None? <==> old(defender.SheetOf()).None?
    ensures r.Some? && r.value.Success? ==> r.value.value == SumAmounts(damages)
    ensures r.Some? && r.value.Failure? ==> r.value.error == TypeError || r.value.error == AttributeError
    ensures r.Some? ==> (r.value.Success? <==> defender.children == [])
  {
    var sheet := defender.Stats();
    SheetUnchanged(defender);
    if sheet.None? {
      return None;
    }
    if defender.children == [] {
      ChildlessSheet(defender);
    }
    var total := 0;
    var i := 0;
    while i < |damages|
      invariant 0 <= i <= |damages|
      invariant ResolveTotalAsWritten(damages[..i], sheet.value) == Success(total)
    {
      assert damages[..i + 1][..i] == damages[..i];
      var a := ResolveAmount(damages[i], sheet.value);
      if a.Failure? {
        assert damages[..i + 1][i] == damages[i];
        return Some(Failure(a.error));
      }
      total := total + a.value;
      i := i + 1;
    }
    assert damages[..i] == damages;
    ResolveTotalAsWrittenSucceeds(damages, sheet.value);
    var dealt := DealDamage(defender, total as real);
    if dealt.Some? && dealt.value.Failure? {
      return Some(Failure(dealt.value.error));
    }
    r := Some(Success(total));
  }

  /** With an actor whose sheet builds, the as-written DamageVector returns
      the plain sum of the amounts exactly when the actor holds nothing:
      a childless actor has the empty sheet, against which no resistance
      applies. */
  lemma VectorOnChildless(defender: Entity, damages: seq<Damage>)
    requires defender.children == []
    ensures defender.SheetOf() == Some(EmptySheet)
    ensures ResolveTotalAsWritten(damages, EmptySheet) == Success(SumAmounts(damages))
  {
    ChildlessSheet(defender);
    ResolveTotalAsWrittenSucceeds(damages, EmptySheet);
  }

  lemma ChildlessSheet(e: Entity)
    requires e.children == []
    ensures e.SheetOf() == Some(EmptySheet)
  {
  }
}
