/** The resumable script interpreter of script.h and script.cpp: a list of
    steps, a name table and an unsigned 32-bit instruction pointer. Steps
    are functions from the state they act on to that state and a result. */
module Scripts {
  import opened Wrappers

  datatype Code = Start | Exit | Wait | WaitAdvance | Retry | Continue | Error

  const U32: nat := 0x1_0000_0000
  type Word = x: nat | x < 0x1_0000_0000
  type Int32 = x: int | -0x8000_0000 <= x < 0x8000_0000

  /** goto_line -1 means no jump by line, goto_label "" normally no jump by label. */
  datatype ScriptResult = ScriptResult(code: Code, gotoLine: Int32, gotoLabel: string)

  function OfCode(code: Code): (r: ScriptResult)
    ensures r.code == code && r.gotoLine == -1 && r.gotoLabel == []
  {
    ScriptResult(code, -1, [])
  }

  function WithLine(code: Code, line: Int32): (r: ScriptResult)
    ensures r.code == code && r.gotoLine == line && r.gotoLabel == []
  {
    ScriptResult(code, line, [])
  }

  function WithLabel(code: Code, name: string): (r: ScriptResult)
    ensures r.code == code && r.gotoLine == -1 && r.gotoLabel == name
  {
    ScriptResult(code, -1, name)
  }

  type Step<!S> = S -> (S, ScriptResult)

  /** Assigning an int to the unsigned pointer wraps negative lines. */
  function ToWord(line: Int32): (w: Word)
    ensures line >= 0 ==> w == line
    ensures line < 0 ==> w == line + U32
  {
    if line >= 0 then line else line + U32
  }

  /** size() is the instruction count as an unsigned int. */
  function SizeOf<S>(steps: seq<Step<S>>): Word {
    |steps| % U32
  }

  /** get_label returns the unsigned line through an `int`: a line of
      2^31 or more comes back negative. */
  function AsInt32(w: Word): (line: Int32)
    ensures ToWord(line) == w
    ensures w < 0x8000_0000 ==> line == w
    ensures w >= 0x8000_0000 ==> line < 0
  {
    if w >= 0x8000_0000 then w - U32 else w
  }

  /** get_label: the bound line as an `int`, or -1 for an unknown name; a
      label bound at line 2^32 - 1 also reads as -1. */
  function LabelLine(labels: map<string, Word>, name: string): (line: Int32)
    ensures name in labels ==> line == AsInt32(labels[name])
    ensures name in labels ==> (line == -1 <==> labels[name] == U32 - 1)
    ensures name !in labels ==> line == -1
  {
    if name in labels then AsInt32(labels[name]) else -1
  }

  /** The pointer after a step's jumps: a line jump, then a label whose
      line does not read as -1 overriding it. */
  function AfterJumps(ip: Word, r: ScriptResult, labels: map<string, Word>): Word {
    var byLine := if r.gotoLine != -1 then ToWord(r.gotoLine) else ip;
    var line := LabelLine(labels, r.gotoLabel);
    if line != -1 then ToWord(line) else byLine
  }

  /** CONTINUE and WAIT_ADVANCE move on past the (possibly jumped-to) line. */
  function Advanced(ip: Word, code: Code): Word {
    if code == Continue || code == WaitAdvance then (ip + 1) % U32 else ip
  }

  /** The pointer updates of one pass of the run_impl loop, in the order
      they are made: the line jump, the label jump, then the step past the
      line for CONTINUE and WAIT_ADVANCE. */
  method NextPointer(ip: Word, r: ScriptResult, labels: map<string, Word>) returns (ip': Word)
    ensures ip' == Advanced(AfterJumps(ip, r, labels), r.code)
    ensures r.gotoLabel in labels && labels[r.gotoLabel] != U32 - 1 && r.code != Continue && r.code != WaitAdvance
      ==> ip' == labels[r.gotoLabel]
  {
    ip' := ip;
    if r.gotoLine != -1 {
      ip' := ToWord(r.gotoLine);
    }
    var line := LabelLine(labels, r.gotoLabel);
    if line != -1 {
      ip' := ToWord(line);
    }
    if r.code == Continue || r.code == WaitAdvance {
      ip' := (ip' + 1) % U32;
    }
  }

  /** What a run leaves behind: the state, the pointer, whether the script
      was cleared, and the result (None when the fuel ran out). */
  datatype Outcome<S> = Outcome(state: S, ip: Word, cleared: bool, result: Option<ScriptResult>)

  /** run_impl from pointer `ip`, with at most `fuel` steps executed. */
  function RunFrom<S>(steps: seq<Step<S>>, labels: map<string, Word>, ip: Word, s: S, fuel: nat): Outcome<S>
    decreases fuel
  {
    if ip >= SizeOf(steps) then Outcome(s, ip, false, Some(OfCode(Exit)))
    else if fuel == 0 then Outcome(s, ip, false, None)
    else
      var (s', r) := steps[ip](s);
      var ip' := Advanced(AfterJumps(ip, r, labels), r.code);
      if r.code == Wait || r.code == WaitAdvance then Outcome(s', ip', false, Some(r))
      else if r.code == Error then Outcome(s', 0, true, Some(r))
      else if ip' == SizeOf(steps) || r.code == Exit then Outcome(s', ip', false, Some(OfCode(Exit)))
      else RunFrom(steps, labels, ip', s', fuel - 1)
  }

  /** One step that neither pauses, fails, exits nor runs off the end
      leaves the rest of the run to the next pointer. */
  lemma RunFromContinues<S>(steps: seq<Step<S>>, labels: map<string, Word>, ip: Word, s: S, fuel: nat)
    requires ip < SizeOf(steps) && fuel > 0
    requires steps[ip](s).1.code !in {Wait, WaitAdvance, Error, Exit}
    requires Advanced(AfterJumps(ip, steps[ip](s).1, labels), steps[ip](s).1.code) != SizeOf(steps)
    ensures RunFrom(steps, labels, ip, s, fuel)
            == RunFrom(steps, labels, Advanced(AfterJumps(ip, steps[ip](s).1, labels), steps[ip](s).1.code),
                       steps[ip](s).0, fuel - 1)
  {
  }

  /** The state after steps i, i + 1, ... have each been applied once. */
  function ThreadFrom<S>(steps: seq<Step<S>>, i: nat, s: S): S
    decreases |steps| - i
  {
    if i >= |steps| then s else ThreadFrom(steps, i + 1, steps[i](s).0)
  }

  /** A script whose every step answers a plain CONTINUE runs its steps once
      each, in order, and exits past the last one. */
  lemma {:induction false} RunAllContinue<S>(steps: seq<Step<S>>, ip: Word, s: S, fuel: nat)
    requires |steps| < U32 && ip <= |steps|
    requires forall j, v :: ip <= j < |steps| ==> steps[j](v).1 == OfCode(Continue)
    requires fuel >= |steps| - ip
    ensures RunFrom(steps, map[], ip, s, fuel) == Outcome(ThreadFrom(steps, ip, s), |steps|, false, Some(OfCode(Exit)))
    decreases |steps| - ip
  {
    if ip < |steps| {
      var (s', r) := steps[ip](s);
      assert r == OfCode(Continue);
      assert Advanced(AfterJumps(ip, r, map[]), r.code) == ip + 1;
      if ip + 1 < |steps| {
        RunAllContinue(steps, ip + 1, s', fuel - 1);
      }
    }
  }

  /** A run ends only on EXIT, WAIT, WAIT_ADVANCE or ERROR. */
  lemma {:induction false} RunResultCode<S>(steps: seq<Step<S>>, labels: map<string, Word>, ip: Word, s: S, fuel: nat)
    ensures var o := RunFrom(steps, labels, ip, s, fuel);
      o.result.Some? ==> o.result.value.code in {Exit, Wait, WaitAdvance, Error}
    decreases fuel
  {
    if ip < SizeOf(steps) && fuel > 0 {
      var (s', r) := steps[ip](s);
      var ip' := Advanced(AfterJumps(ip, r, labels), r.code);
      if !(r.code in {Wait, WaitAdvance, Error, Exit} || ip' == SizeOf(steps)) {
        RunResultCode(steps, labels, ip', s', fuel - 1);
      }
    }
  }

  /** More fuel never changes a run that finished. */
  lemma {:induction false} RunMoreFuel<S>(steps: seq<Step<S>>, labels: map<string, Word>, ip: Word, s: S, fuel: nat, more: nat)
    requires RunFrom(steps, labels, ip, s, fuel).result.Some?
    requires more >= fuel
    ensures RunFrom(steps, labels, ip, s, more) == RunFrom(steps, labels, ip, s, fuel)
    decreases fuel
  {
    if ip < SizeOf(steps) {
      var (s', r) := steps[ip](s);
      var ip' := Advanced(AfterJumps(ip, r, labels), r.code);
      if !(r.code in {Wait, WaitAdvance, Error, Exit} || ip' == SizeOf(steps)) {
        RunMoreFuel(steps, labels, ip', s', fuel - 1, more - 1);
      }
    }
  }

  /** A step that retries itself without a known jump never lets the run
      end: no fuel is enough. */
  lemma {:induction false} RetryNeverEnds<S>(steps: seq<Step<S>>, labels: map<string, Word>, ip: Word, s: S, fuel: nat)
    requires ip < SizeOf(steps)
    requires forall t :: steps[ip](t) == (t, OfCode(Retry))
    requires [] !in labels
    ensures RunFrom(steps, labels, ip, s, fuel).result == None
    decreases fuel
  {
    if fuel > 0 {
      assert steps[ip](s) == (s, OfCode(Retry));
      RetryNeverEnds(steps, labels, ip, s, fuel - 1);
    }
  }

  /** push_jump(label): a step that retries at the label's line. */
  function JumpStep<S>(name: string): Step<S> {
    s => (s, WithLabel(Retry, name))
  }

  /** push_jump_ptr: reads the label cell, empties it, and retries at that
      label. The cell is a slot of the state, read by `get` and emptied by
      `clear`. */
  function JumpPtrStep<S>(get: S -> string, clear: S -> S): Step<S> {
    s => (clear(s), WithLabel(Retry, get(s)))
  }

  /** A jump to a known label continues the run from the label's line with
      the state untouched. */
  lemma JumpGoesToLabel<S>(steps: seq<Step<S>>, labels: map<string, Word>, ip: Word, s: S, fuel: nat, name: string)
    requires ip < SizeOf(steps) && fuel > 0
    requires steps[ip] == JumpStep(name)
    requires name in labels && labels[name] != SizeOf(steps) && labels[name] != U32 - 1
    ensures RunFrom(steps, labels, ip, s, fuel) == RunFrom(steps, labels, labels[name], s, fuel - 1)
  {
    assert steps[ip](s) == (s, WithLabel(Retry, name));
  }

  /** A label bound at line 2^32 - 1 reads as -1, so a jump to it is no
      jump: the step retries in place and the run spends its fuel there. */
  lemma JumpToLastLineStays<S>(steps: seq<Step<S>>, labels: map<string, Word>, ip: Word, s: S, fuel: nat, name: string)
    requires ip < SizeOf(steps) && fuel > 0
    requires steps[ip] == JumpStep(name)
    requires name in labels && labels[name] == U32 - 1
    ensures RunFrom(steps, labels, ip, s, fuel) == RunFrom(steps, labels, ip, s, fuel - 1)
  {
    assert steps[ip](s) == (s, WithLabel(Retry, name));
  }

  /** A jump through the cell goes to the label it held and leaves the cell
      cleared. */
  lemma JumpPtrGoesToLabel<S>(steps: seq<Step<S>>, labels: map<string, Word>, ip: Word, s: S, fuel: nat,
                              get: S -> string, clear: S -> S)
    requires ip < SizeOf(steps) && fuel > 0
    requires steps[ip] == JumpPtrStep(get, clear)
    requires get(s) in labels && labels[get(s)] != SizeOf(steps) && labels[get(s)] != U32 - 1
    ensures RunFrom(steps, labels, ip, s, fuel) == RunFrom(steps, labels, labels[get(s)], clear(s), fuel - 1)
  {
    assert steps[ip](s) == (clear(s), WithLabel(Retry, get(s)));
  }

  /** Script: the instruction list and the label table. */
  class Script<S> {
    var instructions: seq<Step<S>>
    var labels: map<string, Word>

    constructor ()
      ensures instructions == [] && labels == map[]
    {
      instructions := [];
      labels := map[];
    }

    method Push(fn: Step<S>)
      modifies this
      ensures instructions == old(instructions) + [fn] && labels == old(labels)
    {
      instructions := instructions + [fn];
    }

    /** push_label: binds the name to the current size; emplace keeps an
        earlier binding of the same name. */
    method PushLabel(name: string)
      modifies this
      ensures instructions == old(instructions)
      ensures name in old(labels) ==> labels == old(labels)
      ensures name !in old(labels) ==> labels == old(labels)[name := Size()]
    {
      if name !in labels {
        labels := labels[name := Size()];
      }
    }

    function Size(): (n: Word)
      reads this
      ensures |instructions| < U32 ==> n == |instructions|
      ensures n <= |instructions|
    {
      SizeOf(instructions)
    }

    function Empty(): (b: bool)
      reads this
      ensures b <==> Size() == 0
    {
      Size() == 0
    }

    function GetLabel(name: string): (line: Int32)
      reads this
      ensures name in labels ==> ToWord(line) == labels[name]
      ensures name !in labels ==> line == -1
    {
      LabelLine(labels, name)
    }

    method Clear()
      modifies this
      ensures instructions == [] && labels == map[]
    {
      instructions := [];
      labels := map[];
    }
  }

  /** ScriptEngine: the script it runs, its pointer and its last result. */
  class ScriptEngine<S> {
    var steps: seq<Step<S>>
    var labels: map<string, Word>
    var ip: Word
    var lastResult: ScriptResult

    /** A default engine: no script, pointer 0, last result EXIT. */
    constructor ()
      ensures steps == [] && labels == map[] && ip == 0 && lastResult == OfCode(Exit)
      ensures !Active()
    {
      steps := [];
      labels := map[];
      ip := 0;
      lastResult := OfCode(Exit);
    }

    /** active(): more to run, and not paused by WAIT, EXIT or ERROR. */
    function Active(): (b: bool)
      reads this
      ensures b ==> ip < |steps|
      ensures lastResult.code !in {Start, WaitAdvance} ==> !b
    {
      ip < SizeOf(steps) && lastResult.code in {Start, WaitAdvance}
    }

    /** clear(): pointer 0 and an empty script; the last result stays. */
    method Clear()
      modifies this
      ensures ip == 0 && steps == [] && labels == map[] && lastResult == old(lastResult)
      ensures !Active()
    {
      ip := 0;
      steps := [];
      labels := map[];
    }

    /** reset(script): installs a copy of the script at pointer 0, START. */
    method Reset(script: Script<S>)
      modifies this
      ensures steps == script.instructions && labels == script.labels
      ensures ip == 0 && lastResult == OfCode(Start)
      ensures Active() <==> |script.instructions| % U32 != 0
    {
      steps := script.instructions;
      labels := script.labels;
      ip := 0;
      lastResult := OfCode(Start);
    }

    /** run_impl: the loop of script.cpp, bounded by `fuel` steps. */
    method RunImpl(game: S, fuel: nat) returns (game': S, res: Option<ScriptResult>)
      modifies this
      ensures var o := RunFrom(old(steps), old(labels), old(ip), game, fuel);
        game' == o.state && ip == o.ip && res == o.result &&
        (if o.cleared then steps == [] && labels == map[] else steps == old(steps) && labels == old(labels))
      ensures lastResult == old(lastResult)
    {
      var f := fuel;
      game' := game;
      while ip < SizeOf(steps)
        invariant steps == old(steps) && labels == old(labels) && lastResult == old(lastResult)
        invariant RunFrom(steps, labels, ip, game', f) == RunFrom(old(steps), old(labels), old(ip), game, fuel)
        decreases f
      {
        if f == 0 {
          return game', None;
        }
        ghost var ip0, g0 := ip, game';
        var (s', r) := steps[ip](game');
        game' := s';
        ip := NextPointer(ip, r, labels);
        if r.code == WaitAdvance || r.code == Wait {
          return game', Some(r);
        }
        if r.code == Error {
          Clear();
          return game', Some(r);
        }
        var code := r.code;
        if ip == SizeOf(steps) {
          code := Exit;
        }
        if code == Exit {
          return game', Some(OfCode(Exit));
        }
        RunFromContinues(steps, labels, ip0, g0, f);
        f := f - 1;
      }
      res := Some(OfCode(Exit));
    }

    /** run(): records run_impl's result as the last result and returns it. */
    method Run(game: S, fuel: nat) returns (game': S, res: Option<ScriptResult>)
      modifies this
      ensures var o := RunFrom(old(steps), old(labels), old(ip), game, fuel);
        game' == o.state && ip == o.ip && res == o.result &&
        (if o.cleared then steps == [] && labels == map[] else steps == old(steps) && labels == old(labels))
      ensures res.Some? ==> lastResult == res.value
      ensures res.None? ==> lastResult == old(lastResult)
      ensures res.Some? ==> (Active() <==> res.value.code == WaitAdvance && ip < SizeOf(steps))
    {
      game', res := RunImpl(game, fuel);
      if res.Some? {
        lastResult := res.value;
        RunResultCode(old(steps), old(labels), old(ip), game, fuel);
      }
    }
  }
}
