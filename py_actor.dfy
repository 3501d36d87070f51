/** actor.py: entities as bags of named components, held in a parent/child
    tree, whose children's modifiers fold into a stat sheet; damage resolved
    against that sheet and consumed from the children's HP fractions. */
module PyActor {
  import opened Wrappers
  import opened PyStats
  import PyEntity

  /** The exceptions the entity operations raise. */
  datatype PyError = AttributeError | KeyError | ValueError | TypeError

  /** A component value: the modifier list, or any other datum (a position,
      a name, a flag), kept as text. */
  datatype Data = ModList(mods: seq<Modifier>) | Datum(text: string)

  const Modifiers := "modifiers"

  /** `Entity.valid_components`: the only keys Set stores. */
  const ValidComponents: set<string> := {"modifiers", "pos", "name", "desc", "has_stats", "image"}

  /** `Entity.instance_properties`: keys Set writes as plain attributes. */
  const InstanceProperties: set<string> := {"id", "components", "children", "parent"}

  /** Attributes of the Entity class itself, which `getattr` finds before
      any component: its own members, its special methods, and those every
      Python 3.11 instance inherits from `object`. */
  const ClassMembers: set<string> :=
    {"valid_components", "instance_properties", "Set", "Get", "GetOr", "Stats", "PickUp", "UpdatePairs",
     "__init__", "__setattr__", "__getattr__", "__delattr__", "__iter__", "__contains__", "__repr__",
     "__dict__", "__module__", "__weakref__", "__doc__", "__class__", "__dir__", "__eq__", "__ne__",
     "__lt__", "__le__", "__gt__", "__ge__", "__hash__", "__format__", "__getattribute__",
     "__getstate__", "__init_subclass__", "__new__", "__reduce__", "__reduce_ex__", "__sizeof__",
     "__str__", "__subclasshook__"}

  /** What Set did with a key. */
  datatype SetOutcome = Stored | InstanceAttribute | Rejected

  /** Get on a components dict: AttributeError for a missing key. */
  function Lookup(cs: map<string, Data>, key: string): (r: Result<Data, PyError>)
    ensures r.Success? <==> key in cs
    ensures r.Failure? ==> r.error == AttributeError
  {
    if key in cs then Success(cs[key]) else Failure(AttributeError)
  }

  /** GetOr: `getattr(self, key, default)`. None where the lookup stops at an
      attribute of the object itself rather than a component. */
  function LookupOr(cs: map<string, Data>, key: string, default: Data): (r: Option<Data>)
    ensures r.None? <==> key in InstanceProperties || key in ClassMembers
  {
    if key in InstanceProperties || key in ClassMembers then None
    else if key in cs then Some(cs[key])
    else Some(default)
  }

  /** For component keys GetOr is Get with the AttributeError turned into
      the default. */
  lemma LookupOrIsLookup(cs: map<string, Data>, key: string, default: Data)
    requires key !in InstanceProperties && key !in ClassMembers
    ensures Lookup(cs, key).Success? ==> LookupOr(cs, key, default) == Some(Lookup(cs, key).value)
    ensures Lookup(cs, key).Failure? ==> LookupOr(cs, key, default) == Some(default)
  {
  }

  /** A key stored by Set reads back, and no other key changes. */
  lemma StoreThenLookup(cs: map<string, Data>, key: string, data: Data, other: string)
    ensures Lookup(cs[key := data], key) == Success(data)
    ensures other != key ==> Lookup(cs[key := data], other) == Lookup(cs, other)
  {
  }

  /** No valid component key is an instance property or a class member, so
      every stored component is visible to GetOr. */
  lemma ComponentsVisible(cs: map<string, Data>, key: string, default: Data)
    requires key in ValidComponents && key in cs
    ensures LookupOr(cs, key, default) == Some(cs[key])
  {
  }

  /** A child whose "modifiers" component is a modifier list. */
  predicate HasMods(e: Entity)
    reads e
  {
    Modifiers in e.components && e.components[Modifiers].ModList?
  }

  /** Which of the entities hold a modifier list. */
  function HasList(cs: seq<Entity>): (has: seq<bool>)
    reads cs
    ensures |has| == |cs|
    ensures forall k :: 0 <= k < |cs| ==> has[k] == HasMods(cs[k])
  {
    seq(|cs|, k requires 0 <= k < |cs| reads cs => HasMods(cs[k]))
  }

  /** The modifier list of each entity (empty where it has none). */
  function ListsOf(cs: seq<Entity>): (ls: seq<seq<Modifier>>)
    reads cs
    ensures |ls| == |cs|
    ensures forall k :: 0 <= k < |cs| && HasMods(cs[k]) ==> ls[k] == cs[k].components[Modifiers].mods
  {
    seq(|cs|, k requires 0 <= k < |cs| reads cs => if HasMods(cs[k]) then cs[k].components[Modifiers].mods else [])
  }

  /** The kinds the sheet fold sees. */
  function KindsOf(mods: seq<Modifier>): (ks: seq<ModKind>)
    reads mods
    ensures |ks| == |mods|
    ensures forall k :: 0 <= k < |mods| ==> ks[k] == mods[k].kind
  {
    seq(|mods|, k requires 0 <= k < |mods| reads mods => mods[k].kind)
  }

  lemma KindsOfAppend(a: seq<Modifier>, b: seq<Modifier>)
    ensures KindsOf(a + b) == KindsOf(a) + KindsOf(b)
  {
  }

  /** Every modifier in any of the lists. */
  function ModSet(lists: seq<seq<Modifier>>): (ms: set<Modifier>)
    ensures forall k, m :: 0 <= k < |lists| && m in lists[k] ==> m in ms
  {
    set k, m | 0 <= k < |lists| && m in lists[k] :: m
  }

  /** The kinds of each list, list by list. */
  function KindLists(lists: seq<seq<Modifier>>): (kl: seq<seq<ModKind>>)
    reads ModSet(lists)
    ensures |kl| == |lists|
    ensures forall k :: 0 <= k < |lists| ==> kl[k] == KindsOf(lists[k])
  {
    seq(|lists|, k requires 0 <= k < |lists| reads ModSet(lists) => KindsOf(lists[k]))
  }

  /** Every modifier of every child, in order. */
  function AllChildMods(cs: seq<Entity>): seq<Modifier>
    reads cs
  {
    PyEntity.Concat(ListsOf(cs))
  }

  /** The sheet after folding the kinds of the first i children, one child
      at a time. */
  function ChildFold(kl: seq<seq<ModKind>>, i: nat): Option<Sheet>
    requires i <= |kl|
  {
    if i == 0 then Some(EmptySheet) else FoldSheet(ChildFold(kl, i - 1), kl[i - 1])
  }

  /** The sheet of children with modifier lists `has` and kinds `kl`: None
      where one of them has no list (AttributeError) or a modifier raises. */
  function SheetFrom(has: seq<bool>, kl: seq<seq<ModKind>>): Option<Sheet>
    requires |has| == |kl|
  {
    if forall k :: 0 <= k < |has| ==> has[k] then ChildFold(kl, |kl|) else None
  }

  /** The sheet Entity.Stats builds from the children `cs`. */
  function SheetOfChildren(cs: seq<Entity>): Option<Sheet>
    reads cs, ModSet(ListsOf(cs))
  {
    SheetFrom(HasList(cs), KindLists(ListsOf(cs)))
  }

  /** A child without a modifier list fails the whole sheet. */
  lemma SheetMissingMods(cs: seq<Entity>, i: nat)
    requires i < |cs| && !HasMods(cs[i])
    ensures SheetOfChildren(cs).None?
  {
    assert !HasList(cs)[i];
  }

  /** Once the fold has failed it stays failed. */
  lemma FoldFailed(start: Option<Sheet>, a: seq<ModKind>, b: seq<ModKind>)
    requires FoldSheet(start, a).None?
    ensures FoldSheet(start, a + b).None?
  {
    FoldSheetAppend(start, a, b);
  }

  /** A failed child fold stays failed. */
  lemma {:induction false} ChildFoldFailed(kl: seq<seq<ModKind>>, i: nat, j: nat)
    requires i <= j <= |kl|
    requires ChildFold(kl, i).None?
    ensures ChildFold(kl, j).None?
    decreases j
  {
    if j > i {
      ChildFoldFailed(kl, i, j - 1);
    }
  }

  /** Folding child by child is folding all their kinds in order. */
  lemma {:induction false} ChildFoldIsFold(kl: seq<seq<ModKind>>, i: nat)
    requires i <= |kl|
    ensures ChildFold(kl, i) == FoldSheet(Some(EmptySheet), PyEntity.Concat(kl[..i]))
  {
    if i > 0 {
      ChildFoldIsFold(kl, i - 1);
      PyEntity.ConcatStep(kl, i - 1);
      FoldSheetAppend(Some(EmptySheet), PyEntity.Concat(kl[..i - 1]), kl[i - 1]);
    }
  }

  /** The kinds of the concatenated lists are the concatenated kinds. */
  lemma {:induction false} KindsOfConcat(lists: seq<seq<Modifier>>)
    ensures KindsOf(PyEntity.Concat(lists)) == PyEntity.Concat(KindLists(lists))
    decreases |lists|
  {
    if lists != [] {
      var init := lists[..|lists| - 1];
      KindsOfConcat(init);
      KindsOfAppend(PyEntity.Concat(init), lists[|lists| - 1]);
      assert KindLists(lists)[..|lists| - 1] == KindLists(init);
    }
  }

  /** The two nested loops of Entity.Stats fold every modifier of every
      child, in order, onto an empty sheet. */
  lemma SheetIsFoldOfAllMods(cs: seq<Entity>)
    requires forall k :: 0 <= k < |cs| ==> HasMods(cs[k])
    ensures SheetOfChildren(cs) == FoldSheet(Some(EmptySheet), KindsOf(AllChildMods(cs)))
  {
    var kl := KindLists(ListsOf(cs));
    ChildFoldIsFold(kl, |kl|);
    assert kl[..|kl|] == kl;
    KindsOfConcat(ListsOf(cs));
  }

  /** One more step of the sheet fold over a prefix of `ks`. */
  lemma FoldPrefixStep(start: Sheet, ks: seq<ModKind>, p: nat, s: Sheet)
    requires p < |ks|
    requires FoldSheet(Some(start), ks[..p]) == Some(s)
    ensures FoldSheet(Some(start), ks[..p + 1]) == ApplyModifier(s, ks[p])
  {
    assert ks[..p + 1][..p] == ks[..p];
  }

  /** A fold that fails on a prefix fails on the whole. */
  lemma FoldPrefixFailed(start: Sheet, ks: seq<ModKind>, p: nat)
    requires p <= |ks|
    requires FoldSheet(Some(start), ks[..p]).None?
    ensures FoldSheet(Some(start), ks).None?
  {
    assert ks == ks[..p] + ks[p..];
    FoldFailed(Some(start), ks[..p], ks[p..]);
  }

  /** The inner loop of Entity.Stats for child i: its "modifiers" component
      (AttributeError where there is none), then each modifier in turn,
      stopping at the first that raises. */
  method ApplyChild(c: Entity, sheet: StatSheet, ghost kl: seq<seq<ModKind>>, ghost i: nat) returns (ok: bool)
    requires i < |kl| && (HasMods(c) ==> kl[i] == KindsOf(c.components[Modifiers].mods))
    requires ChildFold(kl, i) == Some(sheet.Value())
    modifies sheet
    ensures ok ==> HasMods(c) && ChildFold(kl, i + 1) == Some(sheet.Value())
    ensures !ok ==> !HasMods(c) || ChildFold(kl, i + 1).None?
  {
    if !HasMods(c) {
      return false;
    }
    var mods := c.components[Modifiers].mods;
    ghost var start := sheet.Value();
    ghost var ks := kl[i];
    assert ChildFold(kl, i + 1) == FoldSheet(Some(start), ks);
    var j := 0;
    while j < |mods|
      invariant 0 <= j <= |mods|
      invariant FoldSheet(Some(start), ks[..j]) == Some(sheet.Value())
    {
      FoldPrefixStep(start, ks, j, sheet.Value());
      ok := ModifyStatSheet(mods[j], sheet);
      if !ok {
        FoldPrefixFailed(start, ks, j + 1);
        return;
      }
      j := j + 1;
    }
    assert ks[..j] == ks;
    ok := true;
  }

  /** A child whose fields and modifiers are as they were has the same
      modifier kinds. */
  twostate lemma ChildUnchanged(c: Entity)
    requires unchanged(c)
    requires old(HasMods(c)) ==> unchanged(old(c.components[Modifiers].mods))
    ensures HasMods(c) == old(HasMods(c))
    ensures HasMods(c) ==> KindsOf(c.components[Modifiers].mods) == old(KindsOf(c.components[Modifiers].mods))
  {
  }

  /** The outer loop of Entity.Stats, over the children `cs`, whose modifier
      lists are `has` and kinds `kl`. */
  method FoldChildren(cs: seq<Entity>, sheet: StatSheet, ghost has: seq<bool>, ghost kl: seq<seq<ModKind>>)
    returns (ok: bool)
    requires |has| == |cs| == |kl|
    requires forall k :: 0 <= k < |cs| ==> has[k] == HasMods(cs[k])
    requires forall k :: 0 <= k < |cs| && HasMods(cs[k]) ==> kl[k] == KindsOf(cs[k].components[Modifiers].mods)
    requires sheet.Value() == EmptySheet
    modifies sheet
    ensures ok ==> SheetFrom(has, kl) == Some(sheet.Value())
    ensures !ok ==> SheetFrom(has, kl).None?
  {
    ok := true;
    var i := 0;
    while ok && i < |cs|
      invariant 0 <= i <= |cs|
      invariant ok ==> forall k :: 0 <= k < i ==> has[k]
      invariant ok ==> ChildFold(kl, i) == Some(sheet.Value())
      invariant !ok ==> SheetFrom(has, kl).None?
    {
      ChildUnchanged(cs[i]);
      ok := ApplyChild(cs[i], sheet, kl, i);
      if ok {
        i := i + 1;
      } else if has[i] {
        ChildFoldFailed(kl, i + 1, |kl|);
      }
    }
  }

  /** An entity whose children and their modifiers are as they were has
      the same sheet. */
  twostate lemma SheetUnchanged(e: Entity)
    requires unchanged(e) && unchanged(old(e.children)) && unchanged(old(ModSet(ListsOf(e.children))))
    ensures e.SheetOf() == old(e.SheetOf())
  {
  }

  /** Every entity of `w` lists each child once, each child of an entity in
      `w` is in `w` and names that entity as its parent, and each entity
      with a parent is among that parent's children. */
  ghost predicate Held(w: set<Entity>)
    reads w
  {
    HeldIn(w, ParentsOf(w), ChildrenOf(w))
  }

  /** Held over a snapshot of the parent links and child lists of `w`. */
  ghost predicate HeldIn(w: set<Entity>, par: map<Entity, Entity?>, ch: map<Entity, seq<Entity>>)
    requires w <= par.Keys && w <= ch.Keys
  {
    && (forall p :: p in w ==> NoDup(ch[p]))
    && (forall p, c :: p in w && c in ch[p] ==> c in w && par[c] == p)
    && (forall e :: e in w && par[e] != null ==> par[e] in w && e in ch[par[e]])
  }

  ghost function ParentsOf(w: set<Entity>): (par: map<Entity, Entity?>)
    reads w
    ensures par.Keys == w && forall x :: x in w ==> par[x] == x.parent
  {
    map x | x in w :: x.parent
  }

  ghost function ChildrenOf(w: set<Entity>): (ch: map<Entity, seq<Entity>>)
    reads w
    ensures ch.Keys == w && forall x :: x in w ==> ch[x] == x.children
  {
    map x | x in w :: x.children
  }

  predicate NoDup<T(==)>(s: seq<T>)
  {
    forall i, j :: 0 <= i < j < |s| ==> s[i] != s[j]
  }

  /** In a world that keeps Held, an entity is held by at most one parent. */
  lemma HeldByOne(w: set<Entity>, p1: Entity, p2: Entity, c: Entity)
    requires Held(w)
    requires p1 in w && p2 in w && c in p1.children && c in p2.children
    ensures p1 == p2 && c.parent == p1
  {
    assert c.parent == p1;
    assert c.parent == p2;
  }

  /** Appending an element not yet present keeps a list free of
      duplicates. */
  lemma AppendNoDup<T>(s: seq<T>, x: T)
    requires NoDup(s) && x !in s
    ensures NoDup(s + [x])
  {
    forall i, j | 0 <= i < j < |s + [x]|
      ensures (s + [x])[i] != (s + [x])[j]
    {
      assert (s + [x])[i] == s[i];
    }
  }

  /** Position of the first element equal to `x`, as `list.remove` finds it. */
  function FirstOf<T(==)>(s: seq<T>, x: T): (r: Option<nat>)
    ensures r.Some? <==> x in s
    ensures r.Some? ==> r.value < |s| && s[r.value] == x && x !in s[..r.value]
  {
    if s == [] then None
    else if s[0] == x then Some(0)
    else
      var t := FirstOf(s[1..], x);
      if t.None? then None
      else
        assert s[1..][..t.value] == s[1..t.value + 1];
        Some(t.value + 1)
  }

  /** Removing one occurrence from a list without duplicates removes the
      element altogether and keeps the rest. */
  lemma RemoveOne<T>(s: seq<T>, i: nat)
    requires NoDup(s) && i < |s|
    ensures NoDup(s[..i] + s[i + 1..])
    ensures forall y :: y in s[..i] + s[i + 1..] <==> y in s && y != s[i]
  {
    var r := s[..i] + s[i + 1..];
    forall y | y in s && y != s[i]
      ensures y in r
    {
      var k :| 0 <= k < |s| && s[k] == y;
      if k < i { assert r[k] == y; } else { assert r[k - 1] == y; }
    }
    forall a, b | 0 <= a < b < |r|
      ensures r[a] != r[b]
    {
      var a' := if a < i then a else a + 1;
      var b' := if b < i then b else b + 1;
      assert r[a] == s[a'] && r[b] == s[b'];
    }
  }

  /** An actor.py Entity. */
  class Entity {
    const id: int
    var components: map<string, Data>
    var children: seq<Entity>
    var parent: Entity?

    constructor (id: int)
      ensures this.id == id && components == map[] && children == [] && parent == null
    {
      this.id := id;
      components := map[];
      children := [];
      parent := null;
    }

    /** Set: instance properties are written as plain attributes; any other
        key outside `valid_components` raises AttributeError. A component
        value cannot stand for the dict, list or entity such a write would
        install, so the model reports it and keeps the fields as they were. */
    method Set(key: string, data: Data) returns (r: SetOutcome)
      modifies this
      ensures r == Stored <==> key !in InstanceProperties && key in ValidComponents
      ensures r == InstanceAttribute <==> key in InstanceProperties
      ensures r == Stored ==> components == old(components)[key := data]
      ensures r != Stored ==> components == old(components)
      ensures children == old(children) && parent == old(parent)
    {
      if key in InstanceProperties {
        return InstanceAttribute;
      }
      if key !in ValidComponents {
        return Rejected;
      }
      components := components[key := data];
      r := Stored;
    }

    /** Get: the component, or AttributeError. */
    function Get(key: string): (r: Result<Data, PyError>)
      reads this
      ensures r.Success? <==> key in components
      ensures r.Success? ==> Lookup(components, key) == r
    {
      Lookup(components, key)
    }

    function GetOr(key: string, default: Data): (r: Option<Data>)
      reads this
      ensures r.None? <==> key in InstanceProperties || key in ClassMembers
      ensures r.Some? ==> r.value == if Get(key).Success? then Get(key).value else default
    {
      LookupOr(components, key, default)
    }

    /** `del e.key`: removes the component, KeyError where it is absent. */
    method Delete(key: string) returns (r: Result<(), PyError>)
      modifies this
      ensures r.Success? <==> key in old(components)
      ensures r.Failure? ==> r.error == KeyError
      ensures components == old(components) - {key}
      ensures children == old(children) && parent == old(parent)
    {
      if key !in components {
        return Failure(KeyError);
      }
      components := components - {key};
      r := Success(());
    }

    /** `key in e` */
    function Contains(key: string): (b: bool)
      reads this
      ensures b <==> Get(key).Success?
    {
      key in components
    }

    /** UpdatePairs: Set for each pair in order, stopping at the first
        rejected key; earlier pairs stay set. */
    method UpdatePairs(pairs: seq<(string, Data)>) returns (ok: bool)
      modifies this
      ensures ok <==> forall k :: 0 <= k < |pairs| ==> pairs[k].0 in ValidComponents || pairs[k].0 in InstanceProperties
      ensures ok ==> components == StoreAll(old(components), pairs)
      ensures !ok ==>
        exists f :: 0 <= f < |pairs| && !Accepted(pairs[f].0)
                    && (forall k :: 0 <= k < f ==> Accepted(pairs[k].0))
                    && components == StoreAll(old(components), pairs[..f])
      ensures children == old(children) && parent == old(parent)
    {
      var i := 0;
      while i < |pairs|
        invariant 0 <= i <= |pairs|
        invariant forall k :: 0 <= k < i ==> pairs[k].0 in ValidComponents || pairs[k].0 in InstanceProperties
        invariant components == StoreAll(old(components), pairs[..i])
        invariant children == old(children) && parent == old(parent)
      {
        var r := Set(pairs[i].0, pairs[i].1);
        if r == Rejected {
          assert !Accepted(pairs[i].0);
          return false;
        }
        assert pairs[..i + 1][..i] == pairs[..i];
        i := i + 1;
      }
      assert pairs[..i] == pairs;
      ok := true;
    }

    /** The sheet Stats builds. */
    function SheetOf(): Option<Sheet>
      reads this, children, ModSet(ListsOf(children))
    {
      SheetOfChildren(children)
    }

    /** Entity.Stats: folds every child's modifiers, in order, into a fresh
        sheet. */
    method Stats() returns (r: Option<Sheet>)
      ensures r == SheetOf()
    {
      var cs := children;
      ghost var has := HasList(cs);
      ghost var kl := KindLists(ListsOf(cs));
      var sheet := new StatSheet();
      var ok := FoldChildren(cs, sheet, has, kl);
      r := if ok then Some(sheet.Value()) else None;
      SheetUnchanged(this);
    }

    /** `children.remove(e)`: drops the first occurrence of `e`; false
        (ValueError) where `e` is not a child. */
    method RemoveChild(e: Entity) returns (found: bool)
      modifies this
      ensures found <==> e in old(children)
      ensures found ==> children == RemoveFirst(old(children), e)
      ensures !found ==> unchanged(this)
      ensures components == old(components) && parent == old(parent)
    {
      var i := FirstOf(children, e);
      if i.None? {
        return false;
      }
      children := children[..i.value] + children[i.value + 1..];
      found := true;
    }

    /** PickUp: the entity leaves its old parent's children (`list.remove`,
        ValueError where it is not there) and is appended to this one's. */
    method PickUp(e: Entity, ghost w: set<Entity>) returns (r: Result<(), PyError>)
      modifies this, e, e.parent
      ensures r.Failure? <==> old(e.parent) != null && e !in old(e.parent.children)
      ensures r.Failure? ==> r.error == ValueError && unchanged(this, e, old(e.parent))
      ensures r.Success? ==> e.parent == this
      ensures r.Success? && old(e.parent) != null && old(e.parent) != this ==>
        old(e.parent).children == RemoveFirst(old(e.parent.children), e)
      ensures r.Success? && old(e.parent) != this ==> children == old(children) + [e]
      ensures r.Success? && old(e.parent) == this ==> children == RemoveFirst(old(children), e) + [e]
      ensures r.Success? ==> unchanged(this`components, e`components)
      ensures r.Success? && old(e.parent) != null ==> unchanged(old(e.parent)`components)
      ensures r.Success? && e != this && e != old(e.parent) ==> unchanged(e`children)
      ensures r.Success? && e != this ==> parent == old(parent)
      ensures r.Success? && old(e.parent) != null && old(e.parent) != e ==> old(e.parent).parent == old(e.parent.parent)
      ensures old(Held(w)) && this in w && e in w ==> Held(w)
    {
      ghost var q := e.parent;
      ghost var par := ParentsOf(w);
      ghost var ch := ChildrenOf(w);
      ghost var qParent := if q != null then q.parent else null;
      ghost var eChildren := e.children;
      if e.parent != null {
        var found := e.parent.RemoveChild(e);
        if !found {
          return Failure(ValueError);
        }
      }
      e.parent := this;
      children := children + [e];
      r := Success(());
      assert q != null && q != e ==> q.parent == qParent;
      assert e != this && e != q ==> e.children == eChildren;
      assert old(Held(w)) && this in w && e in w ==> Held(w) by {
        if HeldIn(w, par, ch) && this in w && e in w {
          PickUpKeepsHeld(w, par, ch, this, e, q);
        }
      }
    }
  }

  /** What PickUp leaves behind, against the links `par` and lists `ch` of
      the world `w` before it: `e` has left its old parent `q` and joined the
      end of `p`'s children, and no other parent link or child list has
      changed. */
  ghost predicate MovedTo(w: set<Entity>, par: map<Entity, Entity?>, ch: map<Entity, seq<Entity>>,
                          p: Entity, e: Entity, q: Entity?)
    reads w
  {
    && w <= par.Keys && w <= ch.Keys && HeldIn(w, par, ch)
    && p in w && e in w && q == par[e]
    && e.parent == p
    && (forall x :: x in w && x != e ==> x.parent == par[x])
    && (forall x :: x in w && x != p && x != q ==> x.children == ch[x])
    && (q != null && q != p ==> q.children == RemoveFirst(ch[q], e))
    && (q != p ==> p.children == ch[p] + [e])
    && (q == p ==> p.children == RemoveFirst(ch[p], e) + [e])
  }

  /** PickUp keeps every entity of the world held by at most one parent. */
  lemma PickUpKeepsHeld(w: set<Entity>, par: map<Entity, Entity?>, ch: map<Entity, seq<Entity>>,
                        p: Entity, e: Entity, q: Entity?)
    requires w <= par.Keys && w <= ch.Keys && HeldIn(w, par, ch)
    requires p in w && e in w && q == par[e]
    requires e.parent == p
    requires forall x :: x in w && x != e ==> x.parent == par[x]
    requires forall x :: x in w && x != p && x != q ==> x.children == ch[x]
    requires q != null && q != p ==> q.children == RemoveFirst(ch[q], e)
    requires q != p ==> p.children == ch[p] + [e]
    requires q == p ==> p.children == RemoveFirst(ch[p], e) + [e]
    ensures Held(w)
  {
    assert MovedTo(w, par, ch, p, e, q);
    MovedNoDup(w, par, ch, p, e, q);
    MovedChildLinks(w, par, ch, p, e, q);
    MovedParentLinks(w, par, ch, p, e, q);
    HeldFromLinks(w);
  }

  /** Held, stated on the fields themselves. */
  lemma HeldFromLinks(w: set<Entity>)
    requires forall x :: x in w ==> NoDup(x.children)
    requires forall x, c :: x in w && c in x.children ==> c in w && c.parent == x
    requires forall x :: x in w && x.parent != null ==> x.parent in w && x in x.parent.children
    ensures Held(w)
  {
    var par := ParentsOf(w);
    var ch := ChildrenOf(w);
    assert HeldIn(w, par, ch);
  }

  /** After the move, e is the last of p's children and not among the ones
      before it. */
  lemma MovedLast(w: set<Entity>, par: map<Entity, Entity?>, ch: map<Entity, seq<Entity>>,
                  p: Entity, e: Entity, q: Entity?)
    requires MovedTo(w, par, ch, p, e, q)
    ensures |p.children| > 0 && p.children[|p.children| - 1] == e
    ensures e !in p.children[..|p.children| - 1]
    ensures forall c :: c in p.children[..|p.children| - 1] ==> c in ch[p]
  {
    var before := if q == p then RemoveFirst(ch[p], e) else ch[p];
    if q != null {
      assert q in w && e in ch[q];
      var i := FirstOf(ch[q], e).value;
      RemoveOne(ch[q], i);
    }
    if q != p {
      assert e !in ch[p];
    }
    assert p.children == before + [e];
    assert p.children[..|p.children| - 1] == before;
    forall c | c in before ensures c in ch[p] {
      if q == p {
        assert c in multiset(before);
      }
    }
  }

  lemma MovedNoDup(w: set<Entity>, par: map<Entity, Entity?>, ch: map<Entity, seq<Entity>>,
                   p: Entity, e: Entity, q: Entity?)
    requires MovedTo(w, par, ch, p, e, q)
    ensures forall x :: x in w ==> NoDup(x.children)
  {
    MovedLast(w, par, ch, p, e, q);
    forall x | x in w
      ensures NoDup(x.children)
    {
      if x == p {
        var before := p.children[..|p.children| - 1];
        assert NoDup(before) by {
          if q == p {
            var i := FirstOf(ch[p], e).value;
            RemoveOne(ch[p], i);
          }
        }
        assert p.children == before + [e];
        AppendNoDup(before, e);
      } else if x == q && q != null {
        var i := FirstOf(ch[q], e).value;
        RemoveOne(ch[q], i);
      }
    }
  }

  lemma MovedChildLinks(w: set<Entity>, par: map<Entity, Entity?>, ch: map<Entity, seq<Entity>>,
                        p: Entity, e: Entity, q: Entity?)
    requires MovedTo(w, par, ch, p, e, q)
    ensures forall x, c :: x in w && c in x.children ==> c in w && c.parent == x
  {
    MovedLast(w, par, ch, p, e, q);
    forall x, c | x in w && c in x.children
      ensures c in w && c.parent == x
    {
      if c != e {
        if x == p {
          assert c in p.children[..|p.children| - 1];
        } else if x == q && q != null {
          var i := FirstOf(ch[q], e).value;
          RemoveOne(ch[q], i);
        }
        assert c in ch[x];
      }
    }
  }

  lemma MovedParentLinks(w: set<Entity>, par: map<Entity, Entity?>, ch: map<Entity, seq<Entity>>,
                         p: Entity, e: Entity, q: Entity?)
    requires MovedTo(w, par, ch, p, e, q)
    ensures forall x :: x in w && x.parent != null ==> x.parent in w && x in x.parent.children
  {
    MovedLast(w, par, ch, p, e, q);
    forall x | x in w && x.parent != null
      ensures x.parent in w && x in x.parent.children
    {
      if x != e {
        assert x.parent == par[x] && x in ch[par[x]];
        if par[x] == q && q != null {
          var i := FirstOf(ch[q], e).value;
          RemoveOne(ch[q], i);
        }
      }
    }
  }

  /** `list.remove(x)` where x is present. */
  function RemoveFirst<T(==)>(s: seq<T>, x: T): (r: seq<T>)
    requires x in s
    ensures |r| == |s| - 1
    ensures multiset(r) == multiset(s) - multiset{x}
  {
    var i := FirstOf(s, x).value;
    assert s == s[..i] + [x] + s[i + 1..];
    s[..i] + s[i + 1..]
  }

  /** A key Set does not reject. */
  predicate Accepted(key: string) {
    key in ValidComponents || key in InstanceProperties
  }

  /** Set applied to each pair in order, for pairs Set accepts; instance
      properties leave the components alone. */
  function StoreAll(cs: map<string, Data>, pairs: seq<(string, Data)>): map<string, Data>
  {
    if pairs == [] then cs
    else
      var before := StoreAll(cs, pairs[..|pairs| - 1]);
      var (k, d) := pairs[|pairs| - 1];
      if k in ValidComponents && k !in InstanceProperties then before[k := d] else before
  }

  /** The last pair for a key wins. */
  lemma {:induction false} StoreAllLastWins(cs: map<string, Data>, pairs: seq<(string, Data)>, i: nat)
    requires i < |pairs| && pairs[i].0 in ValidComponents
    requires forall k :: i < k < |pairs| ==> pairs[k].0 != pairs[i].0
    ensures pairs[i].0 in StoreAll(cs, pairs) && StoreAll(cs, pairs)[pairs[i].0] == pairs[i].1
    decreases |pairs|
  {
    if i < |pairs| - 1 {
      StoreAllLastWins(cs, pairs[..|pairs| - 1], i);
    }
  }

  // ---------------------------------------------------------------------
  // AddModifier

  /** AddModifier as written: the modifier's parent becomes `e`, then the
      modifier is appended to `e.modifiers` twice (AttributeError where `e`
      has no modifier list). */
  method AddModifier(e: Entity, mod: Modifier) returns (r: Result<(), PyError>)
    modifies e, mod
    ensures mod.parent == e && mod.kind == old(mod.kind) && mod.reason == old(mod.reason)
    ensures r.Success? <==> old(HasMods(e))
    ensures r.Failure? ==> r.error == AttributeError && e.components == old(e.components)
    ensures r.Success? ==>
      e.components == old(e.components)[Modifiers := ModList(old(e.components[Modifiers].mods) + [mod, mod])]
    ensures e.children == old(e.children) && e.parent == old(e.parent)
  {
    mod.parent := e;
    if !HasMods(e) {
      return Failure(AttributeError);
    }
    var mods := e.components[Modifiers].mods;
    e.components := e.components[Modifiers := ModList(mods + [mod])];
    var twice := e.components[Modifiers].mods;
    e.components := e.components[Modifiers := ModList(twice + [mod])];
    assert twice + [mod] == mods + [mod, mod];
    r := Success(());
  }

  /** AddModifier as evidently intended (and as entity.py's Item.AddModifier
      does it): the modifier is appended once. */
  method AddModifierOnce(e: Entity, mod: Modifier) returns (r: Result<(), PyError>)
    modifies e, mod
    ensures mod.parent == e && mod.kind == old(mod.kind) && mod.reason == old(mod.reason)
    ensures r.Success? <==> old(HasMods(e))
    ensures r.Failure? ==> r.error == AttributeError && e.components == old(e.components)
    ensures r.Success? ==>
      e.components == old(e.components)[Modifiers := ModList(old(e.components[Modifiers].mods) + [mod])]
    ensures e.children == old(e.children) && e.parent == old(e.parent)
  {
    mod.parent := e;
    if !HasMods(e) {
      return Failure(AttributeError);
    }
    var mods := e.components[Modifiers].mods;
    e.components := e.components[Modifiers := ModList(mods + [mod])];
    r := Success(());
  }

  /** What the double append does to the sheet: a fractional modifier added
      by AddModifier counts twice, as one with twice the numerator and
      denominator. */
  lemma AddedTwiceCountsTwice(s: Sheet, before: seq<ModKind>, name: string, n: int, d: int)
    requires FoldSheet(Some(s), before).Some?
    requires AddFraction(FoldSheet(Some(s), before).value, name, n, d).Some?
    ensures FoldSheet(Some(s), before + [Fractional(name, n, d), Fractional(name, n, d)])
            == AddFraction(FoldSheet(Some(s), before).value, name, 2 * n, 2 * d)
  {
    var k := Fractional(name, n, d);
    var t := FoldSheet(Some(s), before).value;
    var once := before + [k];
    assert (once + [k])[..|once|] == once;
    assert once[..|before|] == before;
    assert FoldSheet(Some(s), once) == AddFraction(t, name, n, d);
    AddFractionAccumulates(t, name, n, d, n, d);
    assert once + [k] == before + [k, k];
  }

  /** The smallest case: a 10/10 HP fraction added to an entity with no
      modifiers yet gives a sheet with HP 20/20. */
  lemma AddModifierDoublesHp()
    ensures FoldSheet(Some(EmptySheet), [Fractional("HP", 10, 10), Fractional("HP", 10, 10)])
            == Some(Sheet(map["HP" := FractionStat("HP", 20, 20)], []))
  {
    AddedTwiceCountsTwice(EmptySheet, [], "HP", 10, 10);
    assert [] + [Fractional("HP", 10, 10), Fractional("HP", 10, 10)]
        == [Fractional("HP", 10, 10), Fractional("HP", 10, 10)];
  }

  /** With the modifier appended once, the child's sheet is the old one with
      that modifier applied once. */
  lemma AddedOnceCountsOnce(s: Sheet, before: seq<ModKind>, k: ModKind)
    ensures FoldSheet(Some(s), before + [k]) == Bind(FoldSheet(Some(s), before), k)
  {
    FoldSheetAppend(Some(s), before, [k]);
  }

  // ---------------------------------------------------------------------
  // Damage

  /** actor.py's DealDamage: build the actor's sheet (false where that
      raises), scale the amount by its incoming-damage attributes, truncate,
      and let every modifier of every child, in order, consume from "HP".
      `left` is what no pool absorbed. */
  method DealDamage(actor: Entity, amount: real) returns (ok: bool, ghost left: int)
    modifies set m | m in AllChildMods(actor.children)
    ensures AllChildMods(actor.children) == old(AllChildMods(actor.children))
    ensures ok == old(actor.SheetOf()).Some?
    ensures ok ==>
      var all := old(AllChildMods(actor.children));
      var r := ConsumeThrough(all, old(HpPools(all)), PyEntity.ScaledDamage(old(actor.SheetOf()).value.attributes, amount));
      left == r.1 && PoolsAgree(all, r.0)
    ensures forall m :: m in AllChildMods(actor.children) && old(allocated(m)) ==> SameButHpN(old(m.kind), m.kind)
    ensures forall m :: m in AllChildMods(actor.children) && old(allocated(m)) ==>
      m.reason == old(m.reason) && m.parent == old(m.parent)
    ensures !ok ==> forall m :: m in AllChildMods(actor.children) && old(allocated(m)) ==> m.kind == old(m.kind)
  {
    var all := AllChildMods(actor.children);
    ghost var pools := HpPools(all);
    var sheet := actor.Stats();
    SheetUnchanged(actor);
    assert ListsOf(actor.children) == old(ListsOf(actor.children));
    assert HpPools(all) == pools;
    if sheet.None? {
      return false, 0;
    }
    var a := PyEntity.ResolveIncoming(sheet.value.attributes, amount);
    label Consume:
    left := ConsumeAll(all, Truncate(a), HpPools(all));
    assert ListsOf(actor.children) == old@Consume(ListsOf(actor.children));
    ok := true;
  }

  /** A damage of `amount`, resisted by the stat named `resistance`. */
  datatype Damage = Damage(amount: int, resistance: Option<string>)

  /** Damage.ResolveAmount as written: `stats.get(resistence, 0)` is the
      Stat object itself where the sheet has that stat, and subtracting it
      from a number raises TypeError; with no such stat the amount is
      returned unchanged. */
  function ResolveAmount(d: Damage, s: Sheet): (r: Result<int, PyError>)
    ensures r.Failure? <==> d.resistance.Some? && d.resistance.value in s.stats
    ensures r.Failure? ==> r.error == TypeError
    ensures r.Success? ==> r.value == d.amount
  {
    if d.resistance.Some? && d.resistance.value in s.stats then Failure(TypeError)
    else Success(d.amount)
  }

  /** The number a stat stands for: an IntegerStat's value times its
      multiplier (as its repr shows it), a FractionStat's numerator. */
  function StatValue(st: Stat): real
  {
    match st
    case IntegerStat(_, value, multiplier) => value as real * multiplier
    case FractionStat(_, n, _) => n as real
  }

  /** The resistance a sheet offers against a damage: the value of the
      named stat, 0 where there is none. */
  function Resistance(d: Damage, s: Sheet): (r: real)
    ensures d.resistance.None? || d.resistance.value !in s.stats ==> r == 0.0
  {
    if d.resistance.Some? && d.resistance.value in s.stats then StatValue(s.stats[d.resistance.value]) else 0.0
  }

  /** Damage.ResolveAmount as evidently intended: the amount minus the value
      of the resisting stat. */
  function ResolveAmountIntended(d: Damage, s: Sheet): (r: real)
    ensures r + Resistance(d, s) == d.amount as real
  {
    d.amount as real - Resistance(d, s)
  }

  /** Where ResolveAmount succeeds at all, the intended reading agrees with
      it; where the sheet has the resisting stat, the code raises instead of
      subtracting. */
  lemma ResolveAmountDiffers(d: Damage, s: Sheet)
    ensures ResolveAmount(d, s).Success? ==> ResolveAmountIntended(d, s) == ResolveAmount(d, s).value as real
    ensures ResolveAmount(d, s).Failure? <==> d.resistance.Some? && d.resistance.value in s.stats
  {
  }

  /** A resisted damage against a sheet holding a 3-point armor stat: the
      code raises where 7 was meant. */
  lemma ResolveAmountRaisesExample()
    ensures var s := Sheet(map["armor" := IntegerStat("armor", 3, 1.0)], []);
            var d := Damage(10, Some("armor"));
            ResolveAmount(d, s) == Failure(TypeError) && ResolveAmountIntended(d, s) == 7.0
  {
  }

  /** The sum DamageVector.DealDamage accumulates, one damage after another. */
  function ResolveTotal(ds: seq<Damage>, s: Sheet): real
  {
    if ds == [] then 0.0 else ResolveTotal(ds[..|ds| - 1], s) + ResolveAmountIntended(ds[|ds| - 1], s)
  }

  function SumAmounts(ds: seq<Damage>): int
  {
    if ds == [] then 0 else SumAmounts(ds[..|ds| - 1]) + ds[|ds| - 1].amount
  }

  function SumResistance(ds: seq<Damage>, s: Sheet): real
  {
    if ds == [] then 0.0 else SumResistance(ds[..|ds| - 1], s) + Resistance(ds[|ds| - 1], s)
  }

  /** The total is the sum of the amounts less the sum of the resistances. */
  lemma {:induction false} ResolveTotalSplits(ds: seq<Damage>, s: Sheet)
    ensures ResolveTotal(ds, s) == SumAmounts(ds) as real - SumResistance(ds, s)
    decreases |ds|
  {
    if ds != [] {
      ResolveTotalSplits(ds[..|ds| - 1], s);
    }
  }

  /** The sum as written: the first damage whose resistance the sheet holds
      raises TypeError; otherwise the plain sum of the amounts. */
  function ResolveTotalAsWritten(ds: seq<Damage>, s: Sheet): (r: Result<int, PyError>)
    ensures r.Failure? ==> r.error == TypeError
  {
    if ds == [] then Success(0)
    else
      match ResolveTotalAsWritten(ds[..|ds| - 1], s)
      case Failure(e) => Failure(e)
      case Success(t) =>
        match ResolveAmount(ds[|ds| - 1], s)
        case Failure(e) => Failure(e)
        case Success(a) => Success(t + a)
  }

  /** The sum as written succeeds exactly when no damage names a resistance
      the sheet holds, and then it is the sum of the amounts, which the
      intended sum equals in that case. */
  lemma {:induction false} ResolveTotalAsWrittenSucceeds(ds: seq<Damage>, s: Sheet)
    ensures ResolveTotalAsWritten(ds, s).Success? <==>
            forall i :: 0 <= i < |ds| ==> ds[i].resistance.None? || ds[i].resistance.value !in s.stats
    ensures ResolveTotalAsWritten(ds, s).Success? ==>
            ResolveTotalAsWritten(ds, s).value == SumAmounts(ds)
            && ResolveTotal(ds, s) == SumAmounts(ds) as real
    decreases |ds|
  {
    if ds != [] {
      var p := ds[..|ds| - 1];
      ResolveTotalAsWrittenSucceeds(p, s);
      assert forall i :: 0 <= i < |p| ==> p[i] == ds[i];
      if ResolveTotalAsWritten(ds, s).Success? {
        ResolveTotalSplits(ds, s);
        ResolveTotalSplits(p, s);
      }
    }
  }

  /** The loop of DamageVector.DealDamage that sums the resolved amounts. */
  method SumResolved(ds: seq<Damage>, s: Sheet) returns (total: real)
    ensures total == ResolveTotal(ds, s)
  {
    total := 0.0;
    var i := 0;
    while i < |ds|
      invariant 0 <= i <= |ds|
      invariant total == ResolveTotal(ds[..i], s)
    {
      assert ds[..i + 1][..i] == ds[..i];
      total := total + ResolveAmountIntended(ds[i], s);
      i := i + 1;
    }
    assert ds[..i] == ds;
  }

  /** The summing loop of DamageVector.DealDamage as written: the first
      damage whose resistance the sheet holds raises TypeError. */
  method SumResolvedAsWritten(ds: seq<Damage>, s: Sheet) returns (r: Result<int, PyError>)
    ensures r == ResolveTotalAsWritten(ds, s)
  {
    var total := 0;
    var i := 0;
    while i < |ds|
      invariant 0 <= i <= |ds|
      invariant ResolveTotalAsWritten(ds[..i], s) == Success(total)
    {
      assert ds[..i + 1][..i] == ds[..i];
      var a := ResolveAmount(ds[i], s);
      if a.Failure? {
        ResolveTotalAsWrittenSucceeds(ds, s);
        return a;
      }
      total := total + a.value;
      i := i + 1;
    }
    assert ds[..i] == ds;
    r := Success(total);
  }

  /** DamageVector.DealDamage as written: the defender's sheet (None where
      Stats raises), then the written sum; where that raises TypeError no
      damage is dealt, otherwise the sum of the amounts is dealt and
      returned. */
  method DealDamageVectorAsWritten(defender: Entity, damages: seq<Damage>)
    returns (r: Option<Result<int, PyError>>, ghost left: int)
    modifies set m | m in AllChildMods(defender.children)
    ensures AllChildMods(defender.children) == old(AllChildMods(defender.children))
    ensures r.None? <==> old(defender.SheetOf()).None?
    ensures r.Some? ==> r.value == ResolveTotalAsWritten(damages, old(defender.SheetOf()).value)
    ensures r.Some? && r.value.Success? ==>
      var all := old(AllChildMods(defender.children));
      var c := ConsumeThrough(all, old(HpPools(all)),
                              PyEntity.ScaledDamage(old(defender.SheetOf()).value.attributes, r.value.value as real));
      left == c.1 && PoolsAgree(all, c.0)
    ensures forall m :: m in AllChildMods(defender.children) && old(allocated(m)) ==> SameButHpN(old(m.kind), m.kind)
    ensures forall m :: m in AllChildMods(defender.children) && old(allocated(m)) ==>
      m.reason == old(m.reason) && m.parent == old(m.parent)
    ensures r.None? || r.value.Failure? ==>
      forall m :: m in AllChildMods(defender.children) && old(allocated(m)) ==> m.kind == old(m.kind)
  {
    ghost var all := AllChildMods(defender.children);
    ghost var pools := HpPools(all);
    var sheet := defender.Stats();
    SheetUnchanged(defender);
    assert ListsOf(defender.children) == old(ListsOf(defender.children));
    assert HpPools(all) == pools;
    if sheet.None? {
      return None, 0;
    }
    var total := SumResolvedAsWritten(damages, sheet.value);
    if total.Failure? {
      return Some(total), 0;
    }
    var ok;
    label Deal:
    assert AllChildMods(defender.children) == all;
    ok, left := DealDamage(defender, total.value as real);
    assert old@Deal(HpPools(all)) == pools;
    assert old@Deal(defender.SheetOf()) == sheet;
    r := Some(total);
  }

  /** DamageVector.DealDamage with the intended ResolveAmount: the
      defender's sheet (None where Stats raises), the sum of the resolved
      damages, DealDamage with that sum, and the sum returned. */
  method DealDamageVector(defender: Entity, damages: seq<Damage>) returns (r: Option<real>, ghost left: int)
    modifies set m | m in AllChildMods(defender.children)
    ensures AllChildMods(defender.children) == old(AllChildMods(defender.children))
    ensures r.None? <==> old(defender.SheetOf()).None?
    ensures r.Some? ==> r.value == ResolveTotal(damages, old(defender.SheetOf()).value)
    ensures r.Some? ==>
      var all := old(AllChildMods(defender.children));
      var c := ConsumeThrough(all, old(HpPools(all)), PyEntity.ScaledDamage(old(defender.SheetOf()).value.attributes, r.value));
      left == c.1 && PoolsAgree(all, c.0)
    ensures forall m :: m in AllChildMods(defender.children) && old(allocated(m)) ==> SameButHpN(old(m.kind), m.kind)
    ensures forall m :: m in AllChildMods(defender.children) && old(allocated(m)) ==>
      m.reason == old(m.reason) && m.parent == old(m.parent)
    ensures r.None? ==> forall m :: m in AllChildMods(defender.children) && old(allocated(m)) ==> m.kind == old(m.kind)
  {
    ghost var all := AllChildMods(defender.children);
    ghost var pools := HpPools(all);
    var sheet := defender.Stats();
    SheetUnchanged(defender);
    assert ListsOf(defender.children) == old(ListsOf(defender.children));
    assert HpPools(all) == pools;
    if sheet.None? {
      return None, 0;
    }
    var total := SumResolved(damages, sheet.value);
    var ok;
    label Deal:
    assert AllChildMods(defender.children) == all;
    ok, left := DealDamage(defender, total);
    assert old@Deal(HpPools(all)) == pools;
    assert old@Deal(defender.SheetOf()) == sheet;
    r := Some(total);
  }
}
