/** The script language of LibCM functions and its reference semantics: a machine
    whose whole control state is an explicit stack of frames.

    An interrupting command (WAIT, CALL, KILL, FUNDEF) stops the machine; the frames
    left on the stack are exactly what is still to be done. */
module ExtFunMachine {

  datatype Proc = Proc(cmds: seq<Cmd>)

  datatype CallMode1 = WaitForCallee | Threaded
  datatype CallMode2 = IfIdle | KillOld | NewInstance

  datatype Cmd =
    | Set(expr: string, mods: seq<string>)
    | Def(mods: seq<string>)
    | Undef(mods: seq<string>)
    | If(tests: seq<string>, branches: seq<Proc>)
    | Case(tests: seq<string>, branches: seq<Proc>)
    | For(init: string, cond: string, incr: string, mods: seq<string>, body: Proc)
    | While(cond: string, body: Proc)
    | Kill(pattern: string)
    | FunDef(params: seq<string>)
    | Call(mode1: CallMode1, mode2: CallMode2, callee: string, args: seq<string>)
    | Wait(cond: string, timeout: string, vars: seq<string>)

  datatype State =
    | StError | StDone | StRunning
    | StWaitInterrupt | StWaitTime | StWaitVars | StWaitVarsAndTime
    | StCall | StWaitCall

  datatype What = Undefine | Define | Update

  /** What one evaluation of an expression yields: whether it succeeded, its value read
      as a truth value, a text and a number, and the evaluator's new memory. */
  datatype Eval<M> = Eval(ok: bool, truth: bool, text: string, number: real, mup: M)

  /** The expression evaluator, as three functions on its memory. */
  datatype Lib<!M> = Lib(eval: (string, M) -> Eval<M>,
                         remove: (string, M) -> M,
                         define: (string, M) -> M)

  /** What stays fixed during one call of `exec`, and may change before the next one. */
  datatype World<!M> = World(lib: Lib<M>, extVars: set<string>, allVars: set<string>,
                             localVars: set<string>, actTime: real)

  /** Everything a procedure updates, apart from the run point. */
  datatype Regs<M> = Regs(mup: M,
                          updateSet: map<string, What>, updateAll: map<string, What>,
                          state: State, waitUntil: real, waitVars: seq<string>,
                          killName: string, fundefName: string, fundefCode: string,
                          callFun: string, callMode2: CallMode2, callParams: seq<string>)

  // ----- commands that only touch the registers -----

  /** Whether a variable exists now: the updates made so far decide, else the tables. */
  predicate Exists<M>(w: World<M>, st: Regs<M>, name: string) {
    if name in st.updateAll then st.updateAll[name] != Undefine
    else name in w.allVars || name in w.localVars
  }

  function Record(m: map<string, What>, name: string, what: What): map<string, What> {
    if name in m then m else m[name := what]
  }

  /** One entry of a UNDEF, DEF or SET list; the flag is true when it was refused. */
  function Modify<M>(w: World<M>, st: Regs<M>, name: string, what: What): (Regs<M>, bool) {
    var exist := Exists(w, st, name);
    match what
    case Undefine =>
      if !exist then (st, true) else
        (st.(updateSet := st.updateSet[name := Undefine],
             updateAll := st.updateAll[name := Undefine],
             mup := w.lib.remove(name, st.mup)), false)
    case Define =>
      if exist || name !in w.extVars then (st, true) else
        (st.(updateSet := st.updateSet[name := Define],
             updateAll := st.updateAll[name := Define],
             mup := w.lib.define(name, st.mup)), false)
    case Update =>
      if !exist then (st, true) else
        (st.(updateSet := Record(st.updateSet, name, Update),
             updateAll := Record(st.updateAll, name, Update)), false)
  }

  function ModifyAll<M>(w: World<M>, st: Regs<M>, names: seq<string>, what: What): (Regs<M>, bool)
    decreases |names|
  {
    if names == [] then (st, false) else
      var (st1, bad) := ModifyAll(w, st, names[..|names| - 1], what);
      var (st2, bad2) := Modify(w, st1, names[|names| - 1], what);
      (st2, bad || bad2)
  }

  /** An entry is refused, and changes nothing, exactly if there is nothing to drop or to
      change, or nothing that could be defined; otherwise the variable exists unless it was
      dropped, and no other is touched. */
  lemma ModifyMeans<M>(w: World<M>, st: Regs<M>, name: string, what: What)
    ensures var (st1, refused) := Modify(w, st, name, what);
            && (refused <==> if what == Define then Exists(w, st, name) || name !in w.extVars else !Exists(w, st, name))
            && (refused ==> st1 == st)
            && (!refused ==> (Exists(w, st1, name) <==> what != Undefine) && name in st1.updateSet)
            && (forall m | m != name :: Exists(w, st1, m) == Exists(w, st, m))
            && (forall m | m != name :: m in st1.updateSet <==> m in st.updateSet)
            && st1.mup == (if refused || what == Update then st.mup
                           else if what == Define then w.lib.define(name, st.mup) else w.lib.remove(name, st.mup))
            && st1 == st.(mup := st1.mup, updateSet := st1.updateSet, updateAll := st1.updateAll)
  {
  }

  /** What exists after a whole list, and when some entry of an assignment was refused. */
  lemma {:induction false} ModifyAllMeans<M>(w: World<M>, st: Regs<M>, names: seq<string>, what: What, m: string)
    ensures var (st1, bad) := ModifyAll(w, st, names, what);
            && Exists(w, st1, m) ==
               (match what
                case Define => Exists(w, st, m) || (m in names && m in w.extVars)
                case Undefine => Exists(w, st, m) && m !in names
                case Update => Exists(w, st, m))
            && (what == Update ==> st1.mup == st.mup && (!bad && m in names ==> Exists(w, st, m)))
            && (what == Update && m in names && !Exists(w, st, m) ==> bad)
            && (what == Update ==> (m in st1.updateSet <==> m in st.updateSet || (m in names && Exists(w, st, m))))
            && st1 == st.(mup := st1.mup, updateSet := st1.updateSet, updateAll := st1.updateAll)
    decreases |names|
  {
    if names != [] {
      var front, last := names[..|names| - 1], names[|names| - 1];
      ModifyAllMeans(w, st, front, what, m);
      ModifyAllMeans(w, st, front, what, last);
      var (st1, _) := ModifyAll(w, st, front, what);
      ModifyMeans(w, st1, last, what);
      assert m in names <==> m in front || m == last;
      hide Modify, Exists;
    }
  }

  predicate Blank(s: string) {
    forall c | c in s :: c in " \t\n\r\U{000C}\U{000B}"
  }

  /** An assignment: nothing is evaluated when one of its targets is refused. */
  function Assign<M>(w: World<M>, st: Regs<M>, expr: string, mods: seq<string>): (Regs<M>, bool) {
    var (st1, bad) := ModifyAll(w, st, mods, Update);
    if bad then (st1, true) else
      var e := w.lib.eval(expr, st1.mup);
      (st1.(mup := e.mup), e.ok)
  }

  function Min(a: nat, b: nat): nat { if a <= b then a else b }

  /** Which branch a CASE takes, testing from `u` on: `ok` is false when a test failed to
      evaluate, and the index is -1 when no branch is taken. */
  function PickCase<M>(w: World<M>, mup: M, tests: seq<string>, n: nat, u: nat): (r: (bool, int, M))
    requires u <= Min(|tests|, n)
    ensures -1 <= r.1 < n
    decreases Min(|tests|, n) - u
  {
    if u == Min(|tests|, n) then
      (true, if |tests| < n then |tests| else -1, mup)
    else
      var e := w.lib.eval(tests[u], mup);
      if !e.ok then (false, -1, e.mup)
      else if e.truth then (true, u, e.mup)
      else PickCase(w, e.mup, tests, n, u + 1)
  }

  /** Which branch an IF takes. */
  function PickIf<M>(w: World<M>, mup: M, tests: seq<string>, n: nat): (bool, int, M)
    requires Min(|tests|, n) > 0
  {
    var e := w.lib.eval(tests[0], mup);
    if !e.ok then (false, -1, e.mup)
    else (true, if e.truth then 0 else if n > 1 then 1 else -1, e.mup)
  }

  /** Registers after a WAIT whose condition holds: the deadline, the awaited variables
      and the kind of waiting. The flag is false when the timeout failed to evaluate. */
  function Park<M>(w: World<M>, st: Regs<M>, timeout: string, vars: seq<string>): (Regs<M>, bool) {
    var e := if timeout == "" then Eval(true, false, "", -1.0, st.mup) else w.lib.eval(timeout, st.mup);
    var st1 := st.(mup := e.mup);
    if !e.ok then (st1, false) else
      var timed := e.number >= 0.0;
      (st1.(waitUntil := if timed then w.actTime + e.number else st.waitUntil,
            waitVars := vars,
            state := if timed && vars != [] then StWaitVarsAndTime
                     else if timed then StWaitTime
                     else if vars != [] then StWaitVars
                     else StWaitInterrupt), true)
  }

  // ----- the machine -----

  /** A frame carries the path (command index, branch, command index, branch, ...) from
      the main procedure to its own procedure. */
  datatype Frame =
    | Block(at: seq<nat>, proc: Proc, i: nat)
    | ForStep(at: seq<nat>, f: Cmd)
    | ForTest(at: seq<nat>, f: Cmd)
    | WhileTest(at: seq<nat>, wh: Cmd)

  predicate GoodFrame(fr: Frame) {
    match fr
    case Block(_, p, i) => i <= |p.cmds|
    case ForStep(_, f) => f.For?
    case ForTest(_, f) => f.For?
    case WhileTest(_, wh) => wh.While?
  }

  type Kont = k: seq<Frame> | forall fr | fr in k :: GoodFrame(fr)

  datatype Step<M> =
    | Next(st: Regs<M>, push: Kont)
    | Fail(st: Regs<M>, parked: bool)
    | Interrupt(st: Regs<M>)

  /** One command at position `here` (the path of its procedure followed by its index). */
  function Perform<M>(w: World<M>, c: Cmd, here: seq<nat>, st: Regs<M>): Step<M> {
    match c
    case Set(expr, mods) =>
      if Blank(expr) then Next(st, []) else
        var (st1, ok) := Assign(w, st, expr, mods);
        if ok then Next(st1, []) else Fail(st1, false)
    case Def(mods) => Next(ModifyAll(w, st, mods, Define).0, [])
    case Undef(mods) => Next(ModifyAll(w, st, mods, Undefine).0, [])
    case If(tests, branches) =>
      if Min(|tests|, |branches|) == 0 then Fail(st, false) else
        var (ok, b, mup) := PickIf(w, st.mup, tests, |branches|);
        Branch(ok, b, branches, here, st.(mup := mup))
    case Case(tests, branches) =>
      if Min(|tests|, |branches|) == 0 then Fail(st, false) else
        var (ok, b, mup) := PickCase(w, st.mup, tests, |branches|, 0);
        Branch(ok, b, branches, here, st.(mup := mup))
    case For(init, _, _, mods, _) =>
      var (st1, ok) := Assign(w, st, init, mods);
      if ok then Next(st1, [ForTest(here + [0], c)]) else Fail(st1, false)
    case While(_, _) => Next(st, [WhileTest(here + [0], c)])
    case Kill(pattern) =>
      if pattern == "" then Next(st, []) else
        var e := w.lib.eval(pattern, st.mup);
        if e.ok then Interrupt(st.(mup := e.mup, killName := e.text)) else Fail(st.(mup := e.mup), false)
    case FunDef(params) =>
      if |params| <= 1 then Next(st, []) else
        var e := w.lib.eval(params[0], st.mup);
        if !e.ok then Fail(st.(mup := e.mup), false) else
          var e2 := w.lib.eval(params[1], e.mup);
          if !e2.ok then Fail(st.(mup := e2.mup), false)
          else Interrupt(st.(mup := e2.mup, fundefName := e.text, fundefCode := e2.text))
    case Call(mode1, mode2, callee, args) =>
      Interrupt(st.(callFun := callee, callMode2 := mode2, callParams := args,
                    state := if mode1.Threaded? then StCall else StWaitCall))
    case Wait(cond, timeout, vars) =>
      var e := if cond == "" then Eval(true, true, "", 0.0, st.mup) else w.lib.eval(cond, st.mup);
      if !e.ok then Fail(st.(mup := e.mup), false)
      else if !e.truth then Next(st.(mup := e.mup), [])
      else
        var (st1, ok) := Park(w, st.(mup := e.mup), timeout, vars);
        if ok then Interrupt(st1) else Fail(st1, true)
  }

  function Branch<M>(ok: bool, b: int, branches: seq<Proc>, here: seq<nat>, st: Regs<M>): Step<M>
    requires -1 <= b < |branches|
  {
    if !ok then Fail(st, false)
    else if b < 0 then Next(st, [])
    else Next(st, [Block(here + [b], branches[b], 0)])
  }

  datatype Outcome = Done | Failed | Left | OutOfFuel

  /** How a run ended. `point` is the run point left behind: the path of the interrupting
      command, or empty. `rest` is the stack above which the machine stopped. */
  datatype Res<M> = Res(out: Outcome, st: Regs<M>, fuel: nat, point: seq<nat>, rest: Kont)

  /** One tick of the machine: it goes on with another stack, or it stops. */
  datatype Tock<M> = Go(k: Kont, st: Regs<M>, fuel: nat) | Stop(r: Res<M>)

  /** Loops may diverge, so every loop test costs one unit of fuel. */
  function Tick<M>(w: World<M>, k: Kont, st: Regs<M>, fuel: nat): Tock<M>
    requires k != []
  {
    var more := k[1..];
    match k[0]
    case Block(at, p, i) =>
      if i == |p.cmds| then Go(more, st, fuel) else
        var next: Kont := [Block(at, p, i + 1)];
        (match Perform(w, p.cmds[i], at + [i], st)
         case Next(st1, push) => Go(push + next + more, st1, fuel)
         case Fail(st1, parked) => Stop(Res(Failed, st1, fuel, if parked then at + [i] else [], []))
         case Interrupt(st1) => Stop(Res(Left, st1, fuel, at + [i], next + more)))
    case ForStep(at, f) =>
      var (st1, ok) := Assign(w, st, f.incr, f.mods);
      if ok then Go([ForTest(at, f)] + more, st1, fuel) else Stop(Res(Failed, st1, fuel, [], []))
    case ForTest(at, f) =>
      Test(w, f.cond, [Block(at, f.body, 0), ForStep(at, f)], more, st, fuel)
    case WhileTest(at, wh) =>
      Test(w, wh.cond, [Block(at, wh.body, 0), WhileTest(at, wh)], more, st, fuel)
  }

  function Test<M>(w: World<M>, cond: string, body: Kont, more: Kont, st: Regs<M>, fuel: nat): Tock<M> {
    if fuel == 0 then Stop(Res(OutOfFuel, st, 0, [], [])) else
      var e := w.lib.eval(cond, st.mup);
      var st1 := st.(mup := e.mup);
      if !e.ok then Stop(Res(Failed, st1, fuel - 1, [], []))
      else if e.truth then Go(body + more, st1, fuel - 1)
      else Go(more, st1, fuel - 1)
  }

  /** Runs the frames until the stack is empty, a command interrupts, or an expression
      fails. */
  function Run<M>(w: World<M>, k: Kont, st: Regs<M>, fuel: nat): (r: Res<M>)
    ensures r.fuel <= fuel
    ensures !r.out.Left? ==> r.rest == []
    ensures r.out.Done? || r.out.OutOfFuel? ==> r.point == []
    decreases fuel, Size(k)
  {
    if k == [] then Res(Done, st, fuel, [], []) else
      TickShrinks(w, k, st, fuel);
      match Tick(w, k, st, fuel)
      case Go(k1, st1, fuel1) => Run(w, k1, st1, fuel1)
      case Stop(r) => r
  }

  // ----- termination measure -----

  function CmdSize(c: Cmd): nat
    decreases c, 1
  {
    match c
    case If(_, branches) => 1 + ProcsSize(branches)
    case Case(_, branches) => 1 + ProcsSize(branches)
    case For(_, _, _, _, _) => 3
    case While(_, _) => 3
    case _ => 1
  }

  function ProcsSize(ps: seq<Proc>): nat
    decreases ps, 0
  {
    if ps == [] then 0 else 1 + CmdsSize(ps[0].cmds) + ProcsSize(ps[1..])
  }

  function CmdsSize(cs: seq<Cmd>): nat
    decreases cs, 0
  {
    if cs == [] then 0 else CmdSize(cs[0]) + CmdsSize(cs[1..])
  }

  function FrameSize(fr: Frame): nat
    requires GoodFrame(fr)
  {
    match fr
    case Block(_, p, i) => 1 + CmdsSize(p.cmds[i..])
    case ForStep(_, _) => 2
    case _ => 1
  }

  function Size(k: Kont): nat {
    if k == [] then 0 else FrameSize(k[0]) + Size(k[1..])
  }

  lemma SizeAppend(k1: Kont, k2: Kont)
    ensures Size(k1 + k2) == Size(k1) + Size(k2)
  {
    if k1 == [] {
      assert k1 + k2 == k2;
    } else {
      assert (k1 + k2)[1..] == k1[1..] + k2;
      SizeAppend(k1[1..], k2);
    }
  }

  lemma BranchSize(ps: seq<Proc>, b: nat)
    requires b < |ps|
    ensures 1 + CmdsSize(ps[b].cmds) <= ProcsSize(ps)
  {
    if b > 0 {
      BranchSize(ps[1..], b - 1);
    }
  }

  lemma PushSize<M>(w: World<M>, c: Cmd, here: seq<nat>, st: Regs<M>)
    ensures var s := Perform(w, c, here, st); s.Next? ==> Size(s.push) < CmdSize(c)
  {
    var s := Perform(w, c, here, st);
    if s.Next? && s.push != [] && s.push[0].Block? {
      var fr := s.push[0];
      BranchSize(c.branches, fr.at[|here|]);
      assert fr.proc.cmds[0..] == fr.proc.cmds;
    }
  }

  lemma StepShrinks<M>(w: World<M>, k: Kont, st: Regs<M>)
    requires k != [] && k[0].Block? && k[0].i < |k[0].proc.cmds|
    ensures var Block(at, p, i) := k[0];
            var s := Perform(w, p.cmds[i], at + [i], st);
            s.Next? ==> Size(s.push + [Block(at, p, i + 1)] + k[1..]) < Size(k)
  {
    var Block(at, p, i) := k[0];
    var next: Kont := [Block(at, p, i + 1)];
    assert p.cmds[i..][0] == p.cmds[i] && p.cmds[i..][1..] == p.cmds[i + 1..];
    PushSize(w, p.cmds[i], at + [i], st);
    var s := Perform(w, p.cmds[i], at + [i], st);
    if s.Next? {
      SizeAppend(s.push + next, k[1..]);
      SizeAppend(s.push, next);
    }
  }

  lemma TickShrinks<M>(w: World<M>, k: Kont, st: Regs<M>, fuel: nat)
    requires k != []
    ensures match Tick(w, k, st, fuel)
            case Go(k1, _, fuel1) => fuel1 < fuel || (fuel1 == fuel && Size(k1) < Size(k))
            case Stop(r) => r.fuel <= fuel && (!r.out.Left? ==> r.rest == []) && !r.out.Done?
                             && (r.out.OutOfFuel? ==> r.point == [])
  {
    match k[0]
    case Block(at, p, i) =>
      if i < |p.cmds| {
        StepShrinks(w, k, st);
      }
    case ForStep(at, f) => SizeAppend([ForTest(at, f)], k[1..]);
    case ForTest(at, f) =>
    case WhileTest(at, wh) =>
  }
}
