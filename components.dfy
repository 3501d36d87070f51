/** Triggers of components.cpp: named scripts attached to an actor. */
module Components {
  import opened Wrappers

  /** The table after set(name, script): emplace leaves an existing entry. */
  function SetScript<V>(scripts: map<string, V>, name: string, script: V): (r: map<string, V>)
    ensures name in r && r.Keys == scripts.Keys + {name}
    ensures name in scripts ==> r[name] == scripts[name]
    ensures name !in scripts ==> r[name] == script
    ensures forall n :: n in scripts && n != name ==> r[n] == scripts[n]
  {
    if name in scripts then scripts else scripts[name := script]
  }

  /** A second set under the same name is ignored. */
  lemma SetTwiceKeepsFirst<V>(scripts: map<string, V>, name: string, first: V, second: V)
    ensures SetScript(SetScript(scripts, name, first), name, second) == SetScript(scripts, name, first)
  {
  }

  class Triggers<V> {
    var scripts: map<string, V>

    constructor ()
      ensures scripts == map[]
    {
      scripts := map[];
    }

    method Set(name: string, script: V)
      modifies this
      ensures scripts == SetScript(old(scripts), name, script)
    {
      if name !in scripts {
        scripts := scripts[name := script];
      }
    }

    /** get_or_null, const or not: the same lookup. */
    function GetOrNull(name: string): (r: Option<V>)
      reads this
      ensures r.None? <==> name !in scripts
      ensures r.Some? ==> r.value == scripts[name]
    {
      if name in scripts then Some(scripts[name]) else None
    }
  }
}
