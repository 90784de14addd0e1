/** Stackless coroutines (include/asio/coroutine.hpp). Three macros turn a body with `yield` and
    `fork` statements into one `switch` over an int, jumping into the middle of loops; the claim is
    that re-entering the body again and again performs what the body says, straight through.

    `Flow` is what the body says. `Machine` is what the macros make of it. */
module Coroutine {

  // ---------- the body of a coroutine ----------

  /** A statement of the body. Loops and conditionals are jumps, as in any flow graph; `line` is
      the number that `__LINE__` or `__COUNTER__` gives the macro. Every action may throw. */
  datatype Instr =
    | Do(action: string)
    | Yield(line: int, action: string)
    | YieldReturn(line: int, action: string)
    | YieldBreak(line: int)
    | Fork(line: int, action: string)
    | Jump(target: nat)
    | Branch(cond: string, target: nat)
    | Return

  type Body = seq<Instr>

  /** How a condition comes out may depend on everything done so far, and on `is_child()`; whether
      an action throws, on everything done before it. */
  datatype World = World(holds: (string, seq<string>, bool) -> bool, throws: (string, seq<string>) -> bool)

  predicate Labelled(s: Instr) {
    s.Yield? || s.YieldReturn? || s.YieldBreak? || s.Fork?
  }

  /** The value of the `case` that the expansion of a statement puts into the outer switch. */
  function CaseValue(s: Instr): int
    requires Labelled(s)
  {
    if s.Fork? then -s.line else s.line
  }

  /** What the compiler insists on: jumps stay inside, and no two cases of the switch are equal,
      those of the values 0 and -1 included. */
  ghost predicate WellFormed(body: Body) {
    && (forall i :: 0 <= i < |body| ==>
          && (body[i].Jump? ==> body[i].target <= |body|)
          && (body[i].Branch? ==> body[i].target <= |body|)
          && (Labelled(body[i]) ==> body[i].line >= 1 && CaseValue(body[i]) != -1))
    && (forall i, j :: 0 <= i < j < |body| && Labelled(body[i]) && Labelled(body[j]) ==>
          CaseValue(body[i]) != CaseValue(body[j]))
  }

  /** What it does not insist on: no fork stands on the line of a yield. */
  ghost predicate NoSharedLine(body: Body) {
    forall i, j :: 0 <= i < |body| && 0 <= j < |body| && body[i].Fork? && Labelled(body[j]) && !body[j].Fork? ==>
      body[i].line != body[j].line
  }

  /** No statement of a fork throws. */
  ghost predicate ForksHold(body: Body, world: World) {
    forall i, trace :: 0 <= i < |body| && body[i].Fork? ==> !world.throws(body[i].action, trace)
  }

  // ---------- straight through ----------

  /** `passed` counts the yields passed, and `just` tells whether the last step passed one. `kept`
      is what a fork has saved since, or 0. */
  datatype Flow =
    Flow(pc: nat, done: bool, child: bool, trace: seq<string>, passed: nat, just: bool, kept: int)

  function Onward(body: Body, world: World, f: Flow): Flow
  {
    if f.done then f
    else if f.pc >= |body| then f.(done := true, just := false)
    else
      match body[f.pc]
      case Do(a) =>
        if world.throws(a, f.trace) then f.(trace := f.trace + [a], done := true, just := false)
        else f.(pc := f.pc + 1, trace := f.trace + [a], just := false)
      case Yield(_, a) => PassYield(f, a)
      case YieldReturn(_, a) => PassYield(f, a)
      case YieldBreak(_) => f.(done := true, just := false, kept := 0)
      case Fork(n, a) =>
        if world.throws(a, f.trace) then f.(trace := f.trace + [a], done := true, just := false, kept := -n)
        else f.(pc := f.pc + 1, trace := f.trace + [a], child := false, just := false, kept := n)
      case Jump(t) => f.(pc := t, just := false)
      case Branch(c, t) => f.(pc := if world.holds(c, f.trace, f.child) then t else f.pc + 1, just := false)
      case Return => f.(done := true, just := false)
  }

  /** A statement that throws leaves the body behind its yield, just as one that does not. */
  function PassYield(f: Flow, action: string): Flow {
    Flow(f.pc + 1, false, false, f.trace + [action], f.passed + 1, true, 0)
  }

  function Straight(body: Body, world: World, f: Flow, n: nat): Flow
  {
    if n == 0 then f else Onward(body, world, Straight(body, world, f, n - 1))
  }

  // ---------- what the macros expand to ----------

  datatype Dest = Slot(slot: nat) | Instr(pc: nat) | Terminate | BailOut | Leave

  /** The C++ control flow inside an expansion, reading and writing `_coro_value`. */
  datatype Op =
    | Set(v: int, to: Dest)
    | Test(v: int, yes: Dest, no: Dest)
    | TestNonZero(yes: Dest, no: Dest)
    | Perform(action: string, to: Dest)
    | Choose(cond: string, yes: Dest, no: Dest)
    | Go(to: Dest)

  /** `ASIO_CORO_YIELD_IMPL(n)`, around a statement that is `statement` here. */
  function InYieldMacro(i: nat, n: int, statement: Op, slot: nat): Op {
    match slot
    case 0 => Set(n, Slot(1))                   // saves where to resume
    case 1 => Test(0, Slot(6), Slot(2))         // never 0, so on to the inner switch
    case 2 => TestNonZero(Slot(5), Slot(4))     // which selects the statement
    case 3 => TestNonZero(Terminate, Slot(4))   // the outer loop again, after a break: terminates
    case 4 => TestNonZero(BailOut, Slot(5))     // the inner loop again, after the statement: bails out
    case 5 => statement
    case _ => Go(Instr(i + 1))                  // the resume point
  }

  /** `ASIO_CORO_FORK_IMPL(n)` */
  function InForkMacro(i: nat, n: int, a: string, slot: nat): Op {
    match slot
    case 0 => Set(-n, Slot(1))                  // saves where the child is to resume
    case 1 => Test(n, Slot(4), Slot(2))         // the first time round, on to the statement
    case 2 => Perform(a, Slot(3))
    case 3 => Set(n, Slot(1))                   // a parent from here on, and round once more
    case _ => Go(Instr(i + 1))                  // the resume point
  }

  /** The operation at `slot` in the expansion of statement `i`. */
  function OpAt(body: Body, i: nat, slot: nat): Op {
    if i >= |body| then Go(Leave)
    else
      match body[i]
      case Do(a) => Perform(a, Instr(i + 1))
      case Yield(n, a) => InYieldMacro(i, n, Perform(a, Slot(4)), slot)   // completes: round the inner loop
      case YieldReturn(n, a) => InYieldMacro(i, n, Perform(a, Leave), slot)
      case YieldBreak(n) => InYieldMacro(i, n, Go(Slot(3)), slot)         // breaks the inner loop
      case Fork(n, a) => InForkMacro(i, n, a, slot)
      case Jump(t) => Go(Instr(t))
      case Branch(c, t) => Choose(c, Instr(t), Instr(i + 1))
      case Return => Go(Leave)
  }

  /** The slot that the `case` of the expansion labels. */
  function CaseSlot(s: Instr): nat
    requires Labelled(s)
  {
    if s.Fork? then 4 else 6
  }

  /** The statement from `i` on that holds `case v`, or the end of the body. */
  function FindCase(body: Body, v: int, i: nat): (k: nat)
    requires i <= |body|
    ensures i <= k <= |body|
    ensures k < |body| ==> Labelled(body[k]) && CaseValue(body[k]) == v
    ensures k == |body| ==> forall j :: i <= j < |body| && Labelled(body[j]) ==> CaseValue(body[j]) != v
    decreases |body| - i
  {
    if i == |body| || (Labelled(body[i]) && CaseValue(body[i]) == v) then i else FindCase(body, v, i + 1)
  }

  // ---------- the machine ----------

  /** Where control is: with the caller, in the header of `ASIO_CORO_REENTER`, or in the body. */
  datatype Loc = Caller | Switch | CaseMinusOne | Terminating | BailingOut | Leaving | At(i: nat, slot: nat)

  datatype Machine = Machine(loc: Loc, value: int, modified: bool, trace: seq<string>, entries: nat)

  function Target(i: nat, d: Dest): Loc {
    match d
    case Slot(s) => At(i, s)
    case Instr(pc) => At(pc, 0)
    case Terminate => Terminating
    case BailOut => BailingOut
    case Leave => Leaving
  }

  /** What `is_child()` and `is_complete()` make of the value. */
  predicate Child(v: int) {
    v < 0
  }

  predicate Complete(v: int) {
    v == -1
  }

  /** `switch (coroutine_ref _coro_value = c)` */
  function Dispatch(body: Body, v: int): Loc {
    if v == -1 then CaseMinusOne
    else if v == 0 then At(0, 0)
    else
      var i := FindCase(body, v, 0);
      if i < |body| then At(i, CaseSlot(body[i])) else Leaving
  }

  function Execute(world: World, i: nat, op: Op, m: Machine): Machine {
    match op
    case Set(v, to) => m.(value := v, modified := true, loc := Target(i, to))
    case Test(v, yes, no) => m.(loc := Target(i, if m.value == v then yes else no))
    case TestNonZero(yes, no) => m.(loc := Target(i, if m.value != 0 then yes else no))
    case Perform(a, to) => m.(trace := m.trace + [a], loc := if world.throws(a, m.trace) then Leaving else Target(i, to))
    case Choose(c, yes, no) => m.(loc := Target(i, if world.holds(c, m.trace, Child(m.value)) then yes else no))
    case Go(to) => m.(loc := Target(i, to))
  }

  function Step(body: Body, world: World, m: Machine): Machine {
    match m.loc
    case Caller => m.(loc := Switch, modified := false, entries := m.entries + 1)
    case Switch => m.(loc := Dispatch(body, m.value))
    case CaseMinusOne => m.(loc := if m.value != 0 then Terminating else At(0, 0))
    case Terminating => m.(loc := BailingOut, value := -1, modified := true)
    case BailingOut => m.(loc := Leaving)
    case Leaving => m.(loc := Caller, value := if m.modified then m.value else -1)
    case At(i, slot) => Execute(world, i, OpAt(body, i, slot), m)
  }

  function Run(body: Body, world: World, m: Machine, n: nat): Machine
  {
    if n == 0 then m else Step(body, world, Run(body, world, m, n - 1))
  }

  // ---------- how the two correspond ----------

  /** Re-entering with value `v` goes on at statement `pc`. */
  ghost predicate ResumesAt(body: Body, v: int, pc: nat) {
    || (v == 0 && pc == 0)
    || (0 < pc <= |body| && Labelled(body[pc - 1]) && CaseValue(body[pc - 1]) == v)
  }

  /** No case for `v`, or the case that terminates. */
  ghost predicate Dead(body: Body, v: int) {
    v != 0 && forall i :: 0 <= i < |body| && Labelled(body[i]) ==> CaseValue(body[i]) != v
  }

  /** In front of statement `i`, which the flow performs next. `_coro_value` was assigned since
      the entry exactly if a fork was passed, and then it holds that fork's parent value. */
  ghost predicate InFront(m: Machine, f: Flow, i: nat) {
    && f.pc == i && f.child == (m.value < 0) && m.entries == f.passed + 1
    && m.modified == (f.kept != 0)
    && (m.modified ==> m.value == f.kept > 0)
  }

  /** Inside the expansion of statement `i`, before its own statement runs, with `n` saved. */
  ghost predicate Saved(m: Machine, f: Flow, i: nat, n: int) {
    f.pc == i && m.value == n && m.modified && m.entries == f.passed + 1
  }

  /** The flow has just passed a yield, one for each entry, and its line is what is saved. */
  ghost predicate BehindYield(body: Body, m: Machine, f: Flow) {
    && !f.done && f.just && m.entries == f.passed > 0
    && 0 < f.pc <= |body| && (body[f.pc - 1].Yield? || body[f.pc - 1].YieldReturn?)
    && m.value == body[f.pc - 1].line
    && !f.child && f.kept == 0
  }

  ghost predicate InYield(body: Body, m: Machine, f: Flow, i: nat, slot: nat, s: Instr)
    requires s.Yield? || s.YieldReturn? || s.YieldBreak?
  {
    match slot
    case 0 => InFront(m, f, i)
    case 1 => Saved(m, f, i, s.line)
    case 2 => Saved(m, f, i, s.line)
    case 4 => s.Yield? && f.pc == i + 1 && m.modified && BehindYield(body, m, f)
    case 5 => Saved(m, f, i, s.line)
    case 6 => InFront(m, f, i + 1)
    case _ => false
  }

  ghost predicate InFork(m: Machine, f: Flow, i: nat, slot: nat, n: int) {
    match slot
    case 0 => InFront(m, f, i)
    case 1 => Saved(m, f, i, -n) || (m.value == n && InFront(m, f, i + 1))
    case 2 => Saved(m, f, i, -n)
    case 3 => Saved(m, f, i + 1, -n) && f.kept == n && !f.child
    case 4 => InFront(m, f, i + 1)
    case _ => false
  }

  ghost predicate InBody(body: Body, m: Machine, f: Flow, i: nat, slot: nat) {
    if i >= |body| || !Labelled(body[i]) then slot == 0 && InFront(m, f, i)
    else if body[i].Fork? then InFork(m, f, i, slot, body[i].line)
    else InYield(body, m, f, i, slot, body[i])
  }

  /** Entering now goes on where the flow is. */
  ghost predicate Waiting(body: Body, m: Machine, f: Flow) {
    ResumesAt(body, m.value, f.pc) && f.child == (m.value < 0) && f.kept == 0
  }

  /** The body is left, and yet the value that a fork has saved has a case in the switch. */
  ghost predicate LeftAlive(body: Body, f: Flow) {
    f.done && f.kept != 0 && !Dead(body, f.kept)
  }

  /** Nothing to go on with, or else what a fork has saved in this very entry. */
  ghost predicate Left(body: Body, m: Machine, f: Flow) {
    if LeftAlive(body, f) then m.value == f.kept && m.entries == f.passed + 1 else Dead(body, m.value)
  }

  /** The machine has carried out the flow `f`, up to the administration of the macros. */
  ghost predicate Carries(body: Body, m: Machine, f: Flow) {
    && m.trace == f.trace
    && (f.done ==> m.entries > f.passed || f.passed == 0)
    && match m.loc
       case Caller =>
         if f.done then Left(body, m, f)
         else if m.entries == 0 then Waiting(body, m, f) && f.passed == 0
         else BehindYield(body, m, f)
       case Switch =>
         if f.done then Dead(body, m.value) && !m.modified && !LeftAlive(body, f)
         else Waiting(body, m, f) && !m.modified && m.entries == f.passed + 1
       case CaseMinusOne => f.done && m.value == -1 && !LeftAlive(body, f)
       case Terminating => f.done && !LeftAlive(body, f)
       case BailingOut => m.modified && if f.done then m.value == -1 && !LeftAlive(body, f) else BehindYield(body, m, f)
       case Leaving =>
         if f.done then (m.modified || LeftAlive(body, f)) ==> m.modified && Left(body, m, f)
         else m.modified && BehindYield(body, m, f)
       case At(i, slot) =>
         if f.done then i < |body| && body[i].YieldBreak? && slot == 3 && f.kept == 0 && m.value == body[i].line
         else InBody(body, m, f, i, slot)
  }

  /** How many steps the machine may take before the flow has to move. */
  function Rank(body: Body, m: Machine): nat {
    match m.loc
    case BailingOut => 11
    case Leaving => 10
    case Caller => 9
    case Switch => 8
    case At(i, slot) =>
      if i < |body| && body[i].Fork? then
        (match slot
         case 3 => 7
         case 1 => if m.value == body[i].line then 6 else 3
         case 4 => 5
         case 0 => 4
         case _ => 2)
      else
        (match slot
         case 4 => 12
         case 6 => 5
         case 0 => 4
         case 1 => 3
         case 2 => 2
         case _ => 1)
    case _ => 0
  }

  lemma CaseIsUnique(body: Body, i: nat)
    requires WellFormed(body) && i < |body| && Labelled(body[i])
    ensures FindCase(body, CaseValue(body[i]), 0) == i
    ensures CaseValue(body[i]) != -1 && CaseValue(body[i]) != 0
  {
  }

  lemma MinusOneIsDead(body: Body)
    requires WellFormed(body)
    ensures Dead(body, -1)
  {
  }

  /** Every step of the machine is a step of the flow, or administration that cannot go on for ever. */
  ghost predicate Follows(body: Body, world: World, m: Machine, f: Flow) {
    var m' := Step(body, world, m);
    if f.done then Carries(body, m', f)
    else
      || (Carries(body, m', f) && Rank(body, m') < Rank(body, m))
      || (Carries(body, m', Onward(body, world, f)) && m'.entries == f.passed + 1)
  }

  lemma StepOutside(body: Body, world: World, m: Machine, f: Flow)
    requires WellFormed(body) && Carries(body, m, f) && !m.loc.At?
    requires m.loc.Caller? ==> !LeftAlive(body, f)
    ensures Follows(body, world, m, f)
  {
    MinusOneIsDead(body);
    if m.loc.Switch? && !f.done && m.value != 0 {
      CaseIsUnique(body, f.pc - 1);
    }
  }

  lemma StepAtPlain(body: Body, world: World, m: Machine, f: Flow)
    requires WellFormed(body) && Carries(body, m, f) && m.loc.At?
    requires m.loc.i >= |body| || !Labelled(body[m.loc.i])
    ensures Follows(body, world, m, f)
  {
    assert !f.done && InFront(m, f, m.loc.i);
    hide Dead, Rank, ResumesAt, FindCase;
  }

  lemma StepAtFork(body: Body, world: World, m: Machine, f: Flow)
    requires WellFormed(body) && Carries(body, m, f) && m.loc.At?
    requires m.loc.i < |body| && body[m.loc.i].Fork?
    ensures Follows(body, world, m, f)
  {
  }

  lemma StepAtYield(body: Body, world: World, m: Machine, f: Flow)
    requires WellFormed(body) && Carries(body, m, f) && m.loc.At?
    requires m.loc.i < |body| && Labelled(body[m.loc.i]) && !body[m.loc.i].Fork?
    ensures Follows(body, world, m, f)
  {
  }

  // ---------- whole runs ----------

  lemma StepFollows(body: Body, world: World, m: Machine, f: Flow)
    requires WellFormed(body) && Carries(body, m, f)
    requires m.loc.Caller? ==> !LeftAlive(body, f)
    ensures Follows(body, world, m, f)
  {
    if !m.loc.At? {
      StepOutside(body, world, m, f);
    } else if m.loc.i >= |body| || !Labelled(body[m.loc.i]) {
      StepAtPlain(body, world, m, f);
    } else if body[m.loc.i].Fork? {
      StepAtFork(body, world, m, f);
    } else {
      StepAtYield(body, world, m, f);
    }
  }

  /** The flow does not leave the body with a value that can be resumed. */
  ghost predicate NeverLeftAlive(body: Body, world: World, f: Flow) {
    forall j: nat :: !LeftAlive(body, Straight(body, world, f, j))
  }

  /** Whatever the machine has done after `k` steps, the flow does it too. */
  lemma {:induction false} RunFollows(body: Body, world: World, m: Machine, f: Flow, k: nat) returns (j: nat)
    requires WellFormed(body) && Carries(body, m, f) && NeverLeftAlive(body, world, f)
    ensures j <= k && Carries(body, Run(body, world, m, k), Straight(body, world, f, j))
  {
    hide Step, Onward, Carries, Rank, LeftAlive;
    if k == 0 {
      j := 0;
    } else {
      j := RunFollows(body, world, m, f, k - 1);
      StepFollows(body, world, Run(body, world, m, k - 1), Straight(body, world, f, j));
      if !Carries(body, Run(body, world, m, k), Straight(body, world, f, j)) {
        j := j + 1;
      }
    }
  }

  lemma {:induction false} RunAdds(body: Body, world: World, m: Machine, a: nat, b: nat)
    ensures Run(body, world, Run(body, world, m, a), b) == Run(body, world, m, a + b)
  {
    hide Step;
    if b > 0 {
      RunAdds(body, world, m, a, b - 1);
    }
  }

  lemma RunNone(body: Body, world: World, m: Machine)
    ensures Run(body, world, m, 0) == m
  {
  }

  lemma RunFirst(body: Body, world: World, m: Machine, k: nat)
    ensures Run(body, world, Step(body, world, m), k) == Run(body, world, m, 1 + k)
  {
    hide Step;
    assert Run(body, world, m, 1) == Step(body, world, Run(body, world, m, 0));
    RunAdds(body, world, m, 1, k);
  }

  lemma {:induction false} StraightAdds(body: Body, world: World, f: Flow, a: nat, b: nat)
    ensures Straight(body, world, Straight(body, world, f, a), b) == Straight(body, world, f, a + b)
  {
    hide Onward;
    if b > 0 {
      StraightAdds(body, world, f, a, b - 1);
    }
  }

  /** The machine gets to the next step of the flow. */
  lemma {:induction false} ReachOnward(body: Body, world: World, m: Machine, f: Flow) returns (k: nat)
    requires WellFormed(body) && Carries(body, m, f) && !f.done
    ensures Carries(body, Run(body, world, m, k), Onward(body, world, f))
    ensures Run(body, world, m, k).entries == f.passed + 1
    decreases Rank(body, m)
  {
    hide Step, Carries, Rank, Onward, WellFormed, Run;
    var m' := Step(body, world, m);
    StepFollows(body, world, m, f);
    if Carries(body, m', Onward(body, world, f)) && m'.entries == f.passed + 1 {
      k := 1;
      RunNone(body, world, m');
      RunFirst(body, world, m, 0);
    } else {
      var k' := ReachOnward(body, world, m', f);
      RunFirst(body, world, m, k');
      k := 1 + k';
    }
  }

  /** Whatever the flow does, the machine does it too, if it is re-entered often enough. */
  lemma {:induction false} RunReaches(body: Body, world: World, m: Machine, f: Flow, j: nat) returns (k: nat)
    requires WellFormed(body) && Carries(body, m, f)
    ensures Carries(body, Run(body, world, m, k), Straight(body, world, f, j))
  {
    hide Step, Onward, Carries, Rank;
    if j == 0 {
      k := 0;
    } else {
      k := RunReaches(body, world, m, f, j - 1);
      var before := Straight(body, world, f, j - 1);
      DoneStays(body, world, before);
      if !before.done {
        var k' := ReachOnward(body, world, Run(body, world, m, k), before);
        RunAdds(body, world, m, k, k');
        k := k + k';
      }
    }
  }

  lemma DoneStays(body: Body, world: World, f: Flow)
    ensures f.done ==> Onward(body, world, f) == f
  {
  }

  // ---------- what the caller sees ----------

  /** A coroutine object with value `v`, in its caller's hands. */
  function Object(v: int): Machine {
    Machine(Caller, v, false, [], 0)
  }

  function FlowFrom(pc: nat, child: bool): Flow {
    Flow(pc, false, child, [], 0, false, 0)
  }

  /** The same has been performed. Back with its caller, the coroutine stands behind the yield just
      passed, the one of the number of this entry; or the body is left and cannot be resumed. */
  ghost predicate Conforms(body: Body, m: Machine, f: Flow) {
    && m.trace == f.trace
    && (m.loc == Caller && m.entries > 0 ==> if f.done then Dead(body, m.value) else BehindYield(body, m, f))
  }

  lemma StartCarries(body: Body, v: int, pc: nat)
    requires ResumesAt(body, v, pc)
    ensures Carries(body, Object(v), FlowFrom(pc, v < 0))
  {
  }

  lemma CarriesConforms(body: Body, world: World, m: Machine, f: Flow)
    requires Carries(body, m, f) && NeverLeftAlive(body, world, f)
    ensures Conforms(body, m, f)
    ensures m.loc == Caller && !f.done ==> m.entries == f.passed
  {
    assert !LeftAlive(body, Straight(body, world, f, 0));
  }

  /** Re-entered again and again, a coroutine performs the actions of the body executed straight
      through, in order: never one too many or one twice. */
  lemma ReentryPerformsBody(body: Body, world: World, v: int, pc: nat, k: nat) returns (j: nat)
    requires WellFormed(body) && ResumesAt(body, v, pc) && NeverLeftAlive(body, world, FlowFrom(pc, v < 0))
    ensures j <= k && Conforms(body, Run(body, world, Object(v), k), Straight(body, world, FlowFrom(pc, v < 0), j))
  {
    j := RunFollows(body, world, Object(v), FlowFrom(pc, v < 0), k);
  }

  /** And every action of the body is performed after finitely many steps. */
  lemma ReentryMissesNothing(body: Body, world: World, v: int, pc: nat, j: nat)
    requires WellFormed(body) && ResumesAt(body, v, pc)
    ensures exists k ::
      Run(body, world, Object(v), k).trace == Straight(body, world, FlowFrom(pc, v < 0), j).trace
  {
    var k := RunReaches(body, world, Object(v), FlowFrom(pc, v < 0), j);
  }

  /** `n` steps of the flow up to and including the next yield, or until the body is left. */
  ghost predicate Segment(body: Body, world: World, f: Flow, n: nat) {
    var f' := Straight(body, world, f, n);
    && (forall t: nat :: t < n ==>
          !Straight(body, world, f, t).done && Straight(body, world, f, t).passed == f.passed)
    && (f'.done || f'.just)
    && f'.passed == if f'.done then f.passed else f.passed + 1
  }

  lemma {:induction false} FlowGrows(body: Body, world: World, f: Flow, n: nat)
    ensures f.passed <= Straight(body, world, f, n).passed
    ensures f.done ==> Straight(body, world, f, n) == f
  {
    if n > 0 {
      FlowGrows(body, world, f, n - 1);
    }
  }

  /** A flow that has just passed its next yield, or that has left without, is the end of a segment. */
  lemma {:induction false} EndsSegment(body: Body, world: World, f: Flow, j: nat) returns (n: nat)
    requires !f.done
    requires var f' := Straight(body, world, f, j);
             if f'.done then f'.passed <= f.passed else f'.just && f'.passed == f.passed + 1
    ensures n <= j && Segment(body, world, f, n) && Straight(body, world, f, n) == Straight(body, world, f, j)
  {
    var before := Straight(body, world, f, j - 1);
    if before.done {
      n := EndsSegment(body, world, f, j - 1);
    } else {
      n := j;
      forall t: nat | t < n
        ensures !Straight(body, world, f, t).done && Straight(body, world, f, t).passed == f.passed
      {
        FlowGrows(body, world, f, t);
        FlowGrows(body, world, Straight(body, world, f, t), n - 1 - t);
        StraightAdds(body, world, f, t, n - 1 - t);
      }
      FlowGrows(body, world, f, n);
    }
  }

  /** A single entry performs exactly the segment it starts at. */
  lemma EntryPerformsSegment(body: Body, world: World, m: Machine, f: Flow, k: nat) returns (n: nat)
    requires WellFormed(body) && Carries(body, m, f) && NeverLeftAlive(body, world, f)
    requires m.loc == Caller && !f.done
    requires var m' := Run(body, world, m, k); m'.loc == Caller && m'.entries == m.entries + 1
    ensures Segment(body, world, f, n)
    ensures Conforms(body, Run(body, world, m, k), Straight(body, world, f, n))
  {
    var j := RunFollows(body, world, m, f, k);
    assert m.entries == f.passed;
    n := EndsSegment(body, world, f, j);
  }

  lemma StillNeverAlive(body: Body, world: World, f: Flow, j: nat)
    requires NeverLeftAlive(body, world, f)
    ensures NeverLeftAlive(body, world, Straight(body, world, f, j))
  {
    forall i: nat
      ensures !LeftAlive(body, Straight(body, world, Straight(body, world, f, j), i))
    {
      StraightAdds(body, world, f, j, i);
    }
  }

  /** From one time the caller has the coroutine to the next, exactly the segment between two yields
      is performed, the last before the entry and the next; or the rest, if there is none. */
  lemma EntryByEntry(body: Body, world: World, v: int, pc: nat, first: nat, next: nat) returns (j: nat, n: nat)
    requires WellFormed(body) && ResumesAt(body, v, pc) && NeverLeftAlive(body, world, FlowFrom(pc, v < 0))
    requires var m, m' := Run(body, world, Object(v), first), Run(body, world, Object(v), next);
             first <= next && m.loc == Caller && m'.loc == Caller && m'.entries == m.entries + 1
    ensures var start := FlowFrom(pc, v < 0);
            var f, f' := Straight(body, world, start, j), Straight(body, world, start, j + n);
            && Conforms(body, Run(body, world, Object(v), first), f)
            && Conforms(body, Run(body, world, Object(v), next), f')
            && if f.done then f' == f else Segment(body, world, f, n)
  {
    hide *;
    var start := FlowFrom(pc, v < 0);
    var m := Run(body, world, Object(v), first);
    StartCarries(body, v, pc);
    j := RunFollows(body, world, Object(v), start, first);
    var f := Straight(body, world, start, j);
    StillNeverAlive(body, world, start, j);
    RunAdds(body, world, Object(v), first, next - first);
    StraightAdds(body, world, start, j, 0);
    CarriesConforms(body, world, m, f);
    if f.done {
      n := RunFollows(body, world, m, f, next - first);
      FlowGrows(body, world, f, n);
      CarriesConforms(body, world, Run(body, world, m, next - first), f);
    } else {
      n := EntryPerformsSegment(body, world, m, f, next - first);
    }
    StraightAdds(body, world, start, j, n);
  }

  /** How far it is back to the caller. */
  function Home(m: Machine): nat {
    match m.loc
    case Caller => 0
    case Leaving => 1
    case BailingOut => 2
    case Terminating => 3
    case CaseMinusOne => 4
    case Switch => 5
    case At(_, _) => 6
  }

  lemma HomeStep(body: Body, world: World, m: Machine, f: Flow)
    requires WellFormed(body) && Carries(body, m, f) && m.loc != Caller
    requires f.done || BehindYield(body, m, f)
    ensures var m' := Step(body, world, m);
            && Carries(body, m', f) && Home(m') < Home(m) && m'.entries == m.entries
            && (BehindYield(body, m, f) ==> BehindYield(body, m', f))
  {
    MinusOneIsDead(body);
  }

  lemma {:induction false} BackHome(body: Body, world: World, m: Machine, f: Flow) returns (k: nat)
    requires WellFormed(body) && Carries(body, m, f)
    requires f.done || BehindYield(body, m, f)
    ensures var m' := Run(body, world, m, k);
            Carries(body, m', f) && m'.loc == Caller && m'.entries == m.entries
    decreases Home(m)
  {
    hide Step, Carries, BehindYield, WellFormed, Run, Home;
    if m.loc == Caller {
      RunNone(body, world, m);
      k := 0;
    } else {
      HomeStep(body, world, m, f);
      k := BackHome(body, world, Step(body, world, m), f);
      RunFirst(body, world, m, k);
      k := 1 + k;
    }
  }

  lemma StopsBehindYield(body: Body, m: Machine, f: Flow)
    requires Carries(body, m, f) && !f.done && f.just && m.entries == f.passed > 0
    ensures BehindYield(body, m, f)
  {
  }

  /** Where a segment ends, the entry comes back. */
  lemma SegmentIsPerformed(body: Body, world: World, m: Machine, f: Flow, n: nat) returns (k: nat)
    requires WellFormed(body) && Carries(body, m, f) && NeverLeftAlive(body, world, f)
    requires m.loc == Caller && Segment(body, world, f, n) && !f.done
    ensures var m' := Run(body, world, m, k);
            && m'.loc == Caller && m'.entries == m.entries + 1
            && Conforms(body, m', Straight(body, world, f, n))
  {
    hide Run, Onward, WellFormed, Carries, Conforms, Step, LeftAlive, NeverLeftAlive;
    var before, after := Straight(body, world, f, n - 1), Straight(body, world, f, n);
    CarriesConforms(body, world, m, f);
    StillNeverAlive(body, world, f, n);
    var k1 := RunReaches(body, world, m, f, n - 1);
    var k2 := ReachOnward(body, world, Run(body, world, m, k1), before);
    RunAdds(body, world, m, k1, k2);
    if !after.done {
      StopsBehindYield(body, Run(body, world, m, k1 + k2), after);
    }
    var k3 := BackHome(body, world, Run(body, world, m, k1 + k2), after);
    RunAdds(body, world, m, k1 + k2, k3);
    CarriesConforms(body, world, Run(body, world, m, k1 + k2 + k3), after);
    k := k1 + k2 + k3;
  }

  // ---------- fork ----------

  /** While the statement of a fork runs, a copy of the coroutine is a child; re-entered, it is a
      child behind the fork, and over any run performs what the body does there for a child. */
  lemma ForkedChild(body: Body, world: World, m: Machine, f: Flow, i: nat, k: nat) returns (j: nat)
    requires WellFormed(body) && Carries(body, m, f)
    requires i < |body| && body[i].Fork? && m.loc == At(i, 2)
    requires NeverLeftAlive(body, world, FlowFrom(i + 1, true))
    ensures Child(m.value) && !Complete(m.value) && ResumesAt(body, m.value, i + 1)
    ensures Dispatch(body, m.value) == At(i, CaseSlot(body[i]))
    ensures j <= k
    ensures Conforms(body, Run(body, world, Object(m.value), k), Straight(body, world, FlowFrom(i + 1, true), j))
  {
    CaseIsUnique(body, i);
    j := ReentryPerformsBody(body, world, m.value, i + 1, k);
  }

  /** The parent goes on at the very same place, and is no child there. */
  lemma ForkingParent(body: Body, world: World, m: Machine, f: Flow, i: nat)
    requires WellFormed(body) && Carries(body, m, f)
    requires i < |body| && body[i].Fork? && m.loc == At(i, 2) && !world.throws(body[i].action, m.trace)
    ensures var parent := Run(body, world, m, 3);
            && parent.loc == At(i, CaseSlot(body[i])) && parent.value == -m.value && !Child(parent.value) && !Complete(parent.value)
            && parent.trace == m.trace + [body[i].action]
  {
    var p1, p2 := Run(body, world, m, 1), Run(body, world, m, 2);
    assert p1 == Step(body, world, Run(body, world, m, 0)) && p2 == Step(body, world, p1);
  }

  // ---------- completion ----------

  /** A coroutine that leaves its body by `return`, by a throw or at the end is complete, unless it
      passed a fork since it was entered: then it keeps what the fork has saved. */
  lemma LeavingCompletes(body: Body, world: World, m: Machine, f: Flow)
    requires WellFormed(body) && Carries(body, m, f) && !f.done
    requires m.loc.At? && Step(body, world, m).loc == Leaving && Onward(body, world, f).done
    ensures var m', f' := Run(body, world, m, 2), Onward(body, world, f);
            && m'.loc == Caller && m'.trace == f'.trace
            && (Complete(m'.value) <==> f'.kept == 0) && (f'.kept != 0 ==> m'.value == f'.kept)
            && (Dead(body, m'.value) <==> !LeftAlive(body, f'))
  {
    MinusOneIsDead(body);
    assert Run(body, world, m, 1) == Step(body, world, Run(body, world, m, 0));
  }

  lemma YieldBreakCompletes(body: Body, world: World, m: Machine, f: Flow)
    requires WellFormed(body) && Carries(body, m, f)
    requires m.loc.At? && m.loc.i < |body| && body[m.loc.i].YieldBreak? && m.loc.slot == 5
    ensures Run(body, world, m, 5) == m.(loc := Caller, value := -1) && Complete(-1)
  {
    var p1, p2 := Run(body, world, m, 1), Run(body, world, m, 2);
    var p3, p4 := Run(body, world, m, 3), Run(body, world, m, 4);
    assert p1 == Step(body, world, Run(body, world, m, 0)) && p2 == Step(body, world, p1);
    assert p3 == Step(body, world, p2) && p4 == Step(body, world, p3);
  }

  /** Entering a completed coroutine, or the parent of a fork that has run off the end, performs
      nothing, for ever. */
  lemma {:induction false} DeadPerformsNothing(body: Body, world: World, v: int, k: nat)
    requires WellFormed(body) && Dead(body, v)
    ensures Run(body, world, Object(v), k).trace == []
  {
    var f := FlowFrom(0, false).(done := true);
    forall j: nat
      ensures Straight(body, world, f, j) == f
    {
      FlowGrows(body, world, f, j);
    }
    var j := RunFollows(body, world, Object(v), f, k);
  }

  /** And it is complete when the caller has it back. */
  lemma DeadEntryCompletes(body: Body, world: World, v: int)
    requires Dead(body, v)
    ensures var m := Run(body, world, Object(v), if v == -1 then 6 else 3);
            m.loc == Caller && Complete(m.value) && m.entries == 1
  {
    var m := Object(v);
    var p1, p2 := Run(body, world, m, 1), Run(body, world, m, 2);
    var p3, p4, p5 := Run(body, world, m, 3), Run(body, world, m, 4), Run(body, world, m, 5);
    assert p1 == Step(body, world, Run(body, world, m, 0)) && p2 == Step(body, world, p1);
    assert p3 == Step(body, world, p2);
    assert p4 == Step(body, world, p3) && p5 == Step(body, world, p4);
  }

  // ---------- two bodies of the documentation ----------

  /** A generator that takes turns: every entry yields the next of one, two, one, two and so on. */
  const INTERLEAVE: Body := [YieldReturn(1, "one"), YieldReturn(2, "two"), Jump(0)]

  lemma InterleaveTakesTurns(world: World)
    ensures WellFormed(INTERLEAVE) && NoSharedLine(INTERLEAVE)
    ensures Straight(INTERLEAVE, world, FlowFrom(0, false), 1) == Flow(1, false, false, ["one"], 1, true, 0)
    ensures Straight(INTERLEAVE, world, FlowFrom(0, false), 2) == Flow(2, false, false, ["one", "two"], 2, true, 0)
    ensures Straight(INTERLEAVE, world, FlowFrom(0, false), 4) == Flow(1, false, false, ["one", "two", "one"], 3, true, 0)
  {
    var f := FlowFrom(0, false);
    StraightOne(INTERLEAVE, world, f);
    assert Straight(INTERLEAVE, world, f, 1) == Flow(1, false, false, ["one"], 1, true, 0);
    assert Straight(INTERLEAVE, world, f, 2) == Flow(2, false, false, ["one", "two"], 2, true, 0);
    assert Straight(INTERLEAVE, world, f, 3) == Flow(0, false, false, ["one", "two"], 2, false, 0);
  }

  lemma StraightOne(body: Body, world: World, f: Flow)
    ensures Straight(body, world, f, 0) == f && Straight(body, world, f, 1) == Onward(body, world, f)
  {
    assert Straight(body, world, f, 0) == f;
  }

  /** A server: the parent accepts again and again, and each child handles what was accepted. */
  const SERVER: Body := [Yield(1, "accept"), Fork(2, "serve"), Branch("is_parent", 0), Do("handle")]

  lemma ServerForks(world: World)
    requires forall a, trace :: !world.throws(a, trace)
    requires forall trace, child :: world.holds("is_parent", trace, child) == !child
    ensures WellFormed(SERVER) && NoSharedLine(SERVER)
    ensures Straight(SERVER, world, FlowFrom(0, false), 3) == Flow(0, false, false, ["accept", "serve"], 1, false, 2)
    ensures Straight(SERVER, world, FlowFrom(2, true), 3) == Flow(4, true, true, ["handle"], 0, false, 0)
  {
    var f, g := FlowFrom(0, false), FlowFrom(2, true);
    var f1, g1 := Onward(SERVER, world, f), Onward(SERVER, world, g);
    StraightOne(SERVER, world, f);
    StraightOne(SERVER, world, g);
    assert f1 == Flow(1, false, false, ["accept"], 1, true, 0) && g1 == Flow(3, false, true, [], 0, false, 0);
    assert Straight(SERVER, world, f, 2) == Flow(2, false, false, ["accept", "serve"], 1, false, 2);
    assert Straight(SERVER, world, g, 2) == Flow(4, false, true, ["handle"], 0, false, 0);
  }

  // ---------- when it does not ----------

  lemma DoneOnce(body: Body, world: World, f: Flow, i: nat, j: nat)
    requires Straight(body, world, f, i).done
    ensures if Straight(body, world, f, j).done then Straight(body, world, f, j) == Straight(body, world, f, i)
            else Straight(body, world, f, j).passed <= Straight(body, world, f, i).passed
  {
    hide Straight, Onward;
    if i <= j {
      StraightAdds(body, world, f, i, j - i);
      FlowGrows(body, world, Straight(body, world, f, i), j - i);
    } else {
      StraightAdds(body, world, f, j, i - j);
      FlowGrows(body, world, Straight(body, world, f, j), i - j);
    }
  }

  lemma AliveComesBack(body: Body, world: World, m: Machine, f: Flow, i: nat) returns (k: nat)
    requires WellFormed(body) && Carries(body, m, f) && LeftAlive(body, Straight(body, world, f, i))
    ensures var m', f' := Run(body, world, m, k), Straight(body, world, f, i);
            m'.loc == Caller && m'.trace == f'.trace && m'.value == f'.kept && m'.entries == f'.passed + 1
  {
    hide Run, Onward, WellFormed, Step, Straight;
    var k1 := RunReaches(body, world, m, f, i);
    var k2 := BackHome(body, world, Run(body, world, m, k1), Straight(body, world, f, i));
    RunAdds(body, world, m, k1, k2);
    k := k1 + k2;
  }

  /** Some moment of the flow shows what the machine shows after `k` steps. */
  ghost predicate InStep(body: Body, world: World, m: Machine, f: Flow, k: nat) {
    exists j: nat :: Conforms(body, Run(body, world, m, k), Straight(body, world, f, j))
  }

  /** Over all runs the coroutine does what its body says, exactly if the body, executed straight
      through, is never left with a value that a fork has saved and that has a case of its own. */
  lemma ReentryPerformsBodyIff(body: Body, world: World, v: int, pc: nat)
    requires WellFormed(body) && ResumesAt(body, v, pc)
    ensures var f := FlowFrom(pc, v < 0);
            (forall k: nat :: InStep(body, world, Object(v), f, k)) <==> NeverLeftAlive(body, world, f)
  {
    hide Run, Straight, ResumesAt, WellFormed;
    var f := FlowFrom(pc, v < 0);
    if NeverLeftAlive(body, world, f) {
      forall k: nat
        ensures InStep(body, world, Object(v), f, k)
      {
        var j := ReentryPerformsBody(body, world, v, pc, k);
      }
    } else {
      var i: nat :| LeftAlive(body, Straight(body, world, f, i));
      StartCarries(body, v, pc);
      var k := AliveComesBack(body, world, Object(v), f, i);
      forall j: nat
        ensures !Conforms(body, Run(body, world, Object(v), k), Straight(body, world, f, j))
      {
        DoneOnce(body, world, f, i, j);
      }
      assert !InStep(body, world, Object(v), f, k);
    }
  }

  /** A value that is not dead has a place to go on at. */
  lemma DeadOrResumes(body: Body, v: int)
    ensures Dead(body, v) <==> forall pc :: !ResumesAt(body, v, pc)
  {
    forall i | 0 <= i < |body| && Labelled(body[i]) && CaseValue(body[i]) == v
      ensures ResumesAt(body, v, i + 1)
    {
    }
    assert v == 0 ==> ResumesAt(body, v, 0);
  }

  /** What becomes of a body that is left so: the caller has the coroutine back, and its next entry
      goes on in the body, behind the statement that has the case of the saved value. */
  lemma LeftAliveGoesOn(body: Body, world: World, v: int, pc: nat, i: nat) returns (k: nat, next: nat)
    requires WellFormed(body) && ResumesAt(body, v, pc)
    requires LeftAlive(body, Straight(body, world, FlowFrom(pc, v < 0), i))
    ensures var m, f := Run(body, world, Object(v), k), Straight(body, world, FlowFrom(pc, v < 0), i);
            m.loc == Caller && m.trace == f.trace && m.value == f.kept && ResumesAt(body, f.kept, next)
    ensures var m := Run(body, world, Object(v), k + 2);
            && 0 < next <= |body| && Labelled(body[next - 1]) && m.loc == At(next - 1, CaseSlot(body[next - 1]))
            && m.trace == Straight(body, world, FlowFrom(pc, v < 0), i).trace
  {
    StartCarries(body, v, pc);
    var f := Straight(body, world, FlowFrom(pc, v < 0), i);
    DeadOrResumes(body, f.kept);
    MinusOneIsDead(body);
    next :| ResumesAt(body, f.kept, next);
    CaseIsUnique(body, next - 1);
    hide Straight, ResumesAt, FindCase, WellFormed, Dead;
    k := AliveComesBack(body, world, Object(v), FlowFrom(pc, v < 0), i);
    var m := Run(body, world, Object(v), k);
    assert Run(body, world, Object(v), k + 1) == Step(body, world, m);
    assert Run(body, world, Object(v), k + 2) == Step(body, world, Step(body, world, m));
  }

  /** What a fork leaves with the parent has no case, exactly if it shares its line with no yield. */
  lemma ParentsAreDeadIff(body: Body)
    requires WellFormed(body)
    ensures NoSharedLine(body) <==> forall i :: 0 <= i < |body| && body[i].Fork? ==> Dead(body, body[i].line)
  {
    if forall i :: 0 <= i < |body| && body[i].Fork? ==> Dead(body, body[i].line) {
      forall i, j | 0 <= i < |body| && 0 <= j < |body| && body[i].Fork? && Labelled(body[j]) && !body[j].Fork?
        ensures body[i].line != body[j].line
      {
        assert CaseValue(body[j]) == body[j].line;
      }
    }
  }

  lemma {:induction false} KeepsAParent(body: Body, world: World, f: Flow, j: nat)
    requires ForksHold(body, world) && !f.done && f.kept == 0
    ensures var f' := Straight(body, world, f, j);
            f'.kept == 0 || exists i :: 0 <= i < |body| && body[i].Fork? && f'.kept == body[i].line
  {
    if j > 0 {
      KeepsAParent(body, world, f, j - 1);
    }
  }

  /** So nothing can go wrong in a body whose lines are not shared, if no fork's statement throws. */
  lemma NeverLeftAliveIf(body: Body, world: World, pc: nat, child: bool)
    requires WellFormed(body) && NoSharedLine(body) && ForksHold(body, world)
    ensures NeverLeftAlive(body, world, FlowFrom(pc, child))
  {
    ParentsAreDeadIff(body);
    forall j: nat
      ensures !LeftAlive(body, Straight(body, world, FlowFrom(pc, child), j))
    {
      KeepsAParent(body, world, FlowFrom(pc, child), j);
    }
  }

  lemma Next(body: Body, world: World, start: Machine, k: nat, m: Machine)
    requires Step(body, world, Run(body, world, start, k)) == m
    ensures Run(body, world, start, k + 1) == m
  {
  }

  lemma {:induction false} FlowStopsAtTwo(body: Body, world: World, f: Flow, j: nat)
    requires Onward(body, world, Onward(body, world, f)).done
    ensures Straight(body, world, f, j) in {f, Onward(body, world, f), Onward(body, world, Onward(body, world, f))}
  {
    hide Onward;
    if j > 0 {
      FlowStopsAtTwo(body, world, f, j - 1);
      DoneStays(body, world, Onward(body, world, Onward(body, world, f)));
    }
  }

  const SHARED_LINE: Body := [Fork(5, "f"), Return, Yield(5, "a"), Do("b")]
  const ONE_FORK: Body := [Fork(2, "f"), Do("b")]

  lemma Cases()
    ensures WellFormed(SHARED_LINE) && !NoSharedLine(SHARED_LINE) && FindCase(SHARED_LINE, 5, 0) == 2
    ensures WellFormed(ONE_FORK) && NoSharedLine(ONE_FORK) && FindCase(ONE_FORK, -2, 0) == 0 && FindCase(ONE_FORK, 2, 0) == 2
  {
    assert SHARED_LINE[0].Fork? && SHARED_LINE[2].Yield? && SHARED_LINE[0].line == SHARED_LINE[2].line;
    assert FindCase(SHARED_LINE, 5, 2) == FindCase(SHARED_LINE, 5, 1) == 2;
    assert FindCase(ONE_FORK, 2, 2) == FindCase(ONE_FORK, 2, 1) == 2;
  }

  /** A fork and a yield on one line: the parent returns, and its next entry goes on behind the yield. */
  lemma SharedLineResumes(world: World)
    requires forall a, trace :: !world.throws(a, trace)
    ensures WellFormed(SHARED_LINE) && !NoSharedLine(SHARED_LINE)
    ensures Run(SHARED_LINE, world, Object(0), 10) == Machine(Caller, 5, true, ["f"], 1)
    ensures Run(SHARED_LINE, world, Object(0), 14).trace == ["f", "b"]
    ensures forall j: nat :: Straight(SHARED_LINE, world, FlowFrom(0, false), j).trace != ["f", "b"]
  {
    Cases();
    SharedLinePath(world);
    forall j: nat
      ensures Straight(SHARED_LINE, world, FlowFrom(0, false), j).trace != ["f", "b"]
    {
      FlowStopsAtTwo(SHARED_LINE, world, FlowFrom(0, false), j);
    }
  }

  lemma SharedLinePath(world: World)
    requires forall a, trace :: !world.throws(a, trace)
    ensures Run(SHARED_LINE, world, Object(0), 10) == Machine(Caller, 5, true, ["f"], 1)
    ensures Run(SHARED_LINE, world, Object(0), 14).trace == ["f", "b"]
  {
    Cases();
    hide Run, FindCase, WellFormed, NoSharedLine;
    RunNone(SHARED_LINE, world, Object(0));
    Next(SHARED_LINE, world, Object(0), 0, Machine(Switch, 0, false, [], 1));
    Next(SHARED_LINE, world, Object(0), 1, Machine(At(0, 0), 0, false, [], 1));
    Next(SHARED_LINE, world, Object(0), 2, Machine(At(0, 1), -5, true, [], 1));
    Next(SHARED_LINE, world, Object(0), 3, Machine(At(0, 2), -5, true, [], 1));
    Next(SHARED_LINE, world, Object(0), 4, Machine(At(0, 3), -5, true, ["f"], 1));
    Next(SHARED_LINE, world, Object(0), 5, Machine(At(0, 1), 5, true, ["f"], 1));
    Next(SHARED_LINE, world, Object(0), 6, Machine(At(0, 4), 5, true, ["f"], 1));
    Next(SHARED_LINE, world, Object(0), 7, Machine(At(1, 0), 5, true, ["f"], 1));
    Next(SHARED_LINE, world, Object(0), 8, Machine(Leaving, 5, true, ["f"], 1));
    Next(SHARED_LINE, world, Object(0), 9, Machine(Caller, 5, true, ["f"], 1));
    Next(SHARED_LINE, world, Object(0), 10, Machine(Switch, 5, false, ["f"], 2));
    Next(SHARED_LINE, world, Object(0), 11, Machine(At(2, 6), 5, false, ["f"], 2));
    Next(SHARED_LINE, world, Object(0), 12, Machine(At(3, 0), 5, false, ["f"], 2));
    Next(SHARED_LINE, world, Object(0), 13, Machine(At(4, 0), 5, false, ["f", "b"], 2));
  }

  /** A fork whose statement throws: the coroutine is left as its own child, which performs the rest. */
  lemma ThrowingForkResumes(world: World)
    requires world.throws("f", []) && !world.throws("b", ["f"])
    ensures WellFormed(ONE_FORK) && NoSharedLine(ONE_FORK)
    ensures Run(ONE_FORK, world, Object(0), 6) == Machine(Caller, -2, true, ["f"], 1)
    ensures Run(ONE_FORK, world, Object(0), 10).trace == ["f", "b"]
    ensures forall j: nat :: Straight(ONE_FORK, world, FlowFrom(0, false), j).trace != ["f", "b"]
  {
    Cases();
    ThrowingForkPath(world);
    forall j: nat
      ensures Straight(ONE_FORK, world, FlowFrom(0, false), j).trace != ["f", "b"]
    {
      FlowStopsAtTwo(ONE_FORK, world, FlowFrom(0, false), j);
    }
  }

  lemma ThrowingForkPath(world: World)
    requires world.throws("f", []) && !world.throws("b", ["f"])
    ensures Run(ONE_FORK, world, Object(0), 6) == Machine(Caller, -2, true, ["f"], 1)
    ensures Run(ONE_FORK, world, Object(0), 10).trace == ["f", "b"]
  {
    Cases();
    hide Run, FindCase, WellFormed, NoSharedLine;
    RunNone(ONE_FORK, world, Object(0));
    Next(ONE_FORK, world, Object(0), 0, Machine(Switch, 0, false, [], 1));
    Next(ONE_FORK, world, Object(0), 1, Machine(At(0, 0), 0, false, [], 1));
    Next(ONE_FORK, world, Object(0), 2, Machine(At(0, 1), -2, true, [], 1));
    Next(ONE_FORK, world, Object(0), 3, Machine(At(0, 2), -2, true, [], 1));
    Next(ONE_FORK, world, Object(0), 4, Machine(Leaving, -2, true, ["f"], 1));
    Next(ONE_FORK, world, Object(0), 5, Machine(Caller, -2, true, ["f"], 1));
    Next(ONE_FORK, world, Object(0), 6, Machine(Switch, -2, false, ["f"], 2));
    Next(ONE_FORK, world, Object(0), 7, Machine(At(0, 4), -2, false, ["f"], 2));
    Next(ONE_FORK, world, Object(0), 8, Machine(At(1, 0), -2, false, ["f"], 2));
    Next(ONE_FORK, world, Object(0), 9, Machine(At(2, 0), -2, false, ["f", "b"], 2));
  }

  /** A parent that runs off the end is not complete, until it has been entered once more. */
  lemma ForkLeavesIncomplete(world: World)
    requires forall a, trace :: !world.throws(a, trace)
    ensures WellFormed(ONE_FORK) && NoSharedLine(ONE_FORK)
    ensures Run(ONE_FORK, world, Object(0), 11) == Machine(Caller, 2, true, ["f", "b"], 1)
    ensures Run(ONE_FORK, world, Object(0), 14) == Machine(Caller, -1, false, ["f", "b"], 2)
  {
    Cases();
    hide Run, FindCase, WellFormed, NoSharedLine;
    RunNone(ONE_FORK, world, Object(0));
    Next(ONE_FORK, world, Object(0), 0, Machine(Switch, 0, false, [], 1));
    Next(ONE_FORK, world, Object(0), 1, Machine(At(0, 0), 0, false, [], 1));
    Next(ONE_FORK, world, Object(0), 2, Machine(At(0, 1), -2, true, [], 1));
    Next(ONE_FORK, world, Object(0), 3, Machine(At(0, 2), -2, true, [], 1));
    Next(ONE_FORK, world, Object(0), 4, Machine(At(0, 3), -2, true, ["f"], 1));
    Next(ONE_FORK, world, Object(0), 5, Machine(At(0, 1), 2, true, ["f"], 1));
    Next(ONE_FORK, world, Object(0), 6, Machine(At(0, 4), 2, true, ["f"], 1));
    Next(ONE_FORK, world, Object(0), 7, Machine(At(1, 0), 2, true, ["f"], 1));
    Next(ONE_FORK, world, Object(0), 8, Machine(At(2, 0), 2, true, ["f", "b"], 1));
    Next(ONE_FORK, world, Object(0), 9, Machine(Leaving, 2, true, ["f", "b"], 1));
    Next(ONE_FORK, world, Object(0), 10, Machine(Caller, 2, true, ["f", "b"], 1));
    Next(ONE_FORK, world, Object(0), 11, Machine(Switch, 2, false, ["f", "b"], 2));
    Next(ONE_FORK, world, Object(0), 12, Machine(Leaving, 2, false, ["f", "b"], 2));
    Next(ONE_FORK, world, Object(0), 13, Machine(Caller, -1, false, ["f", "b"], 2));
  }

  // ---------- the classes ----------

  class Coroutine {
    var value: int

    constructor ()
      ensures value == 0 && IsParent() && !IsComplete()
    {
      value := 0;
    }

    predicate IsChild()
      reads this
    {
      Child(value)
    }

    predicate IsParent()
      reads this
    {
      !IsChild()
    }

    predicate IsComplete()
      reads this
    {
      Complete(value)
    }
  }

  /** `coroutine_ref`: writes through to the coroutine, and completes it on destruction unless it
      was written to. */
  class CoroutineRef {
    const target: Coroutine
    var modified: bool

    constructor (c: Coroutine)
      ensures target == c && !modified
    {
      target, modified := c, false;
    }

    method Assign(v: int)
      modifies this, target
      ensures modified && target.value == v
    {
      modified := true;
      target.value := v;
    }

    method Destroy()
      modifies target
      ensures target.value == if modified then old(target.value) else -1
      ensures !modified ==> target.IsComplete()
    {
      if !modified {
        target.value := -1;
      }
    }
  }

  /** `reenter (c)` around the body, for at most `budget` operations. */
  method Reenter(c: Coroutine, body: Body, world: World, performed: seq<string>, budget: nat)
    returns (all: seq<string>, back: bool, ghost steps: nat)
    modifies c
    ensures var m := Run(body, world, Machine(Caller, old(c.value), false, performed, 0), steps);
            && m.value == c.value && m.trace == all && m.entries == 1 && (back <==> m.loc == Caller)
            && (c.IsComplete() <==> m.value == -1) && (c.IsChild() <==> m.value < 0) && (c.IsParent() <==> m.value >= 0)
    ensures forall i :: 0 < i < steps ==>
              Run(body, world, Machine(Caller, old(c.value), false, performed, 0), i).loc != Caller
    ensures 0 < steps <= budget + 1 && (!back ==> steps == budget + 1)
  {
    hide OpAt, Dispatch;
    ghost var start := Machine(Caller, c.value, false, performed, 0);
    assert Run(body, world, start, 1) == Step(body, world, Run(body, world, start, 0));
    var ref := new CoroutineRef(c);
    var loc, left := Switch, budget;
    all, steps := performed, 1;
    while loc != Caller && left > 0
      invariant fresh(ref) && ref.target == c
      invariant left + steps == budget + 1 && left >= 0
      invariant Run(body, world, start, steps) == Machine(loc, c.value, ref.modified, all, 1)
      invariant forall i :: 0 < i < steps ==> Run(body, world, start, i).loc != Caller
      decreases left
    {
      match loc {
        case Switch =>
          loc := Dispatch(body, c.value);
        case CaseMinusOne =>
          loc := if c.value != 0 then Terminating else At(0, 0);
        case Terminating =>
          ref.Assign(-1);
          loc := BailingOut;
        case BailingOut =>
          loc := Leaving;
        case Leaving =>
          ref.Destroy();
          loc := Caller;
        case At(i, slot) =>
          match OpAt(body, i, slot) {
            case Set(v, to) =>
              ref.Assign(v);
              loc := Target(i, to);
            case Test(v, yes, no) =>
              loc := Target(i, if c.value == v then yes else no);
            case TestNonZero(yes, no) =>
              loc := Target(i, if c.value != 0 then yes else no);
            case Perform(a, to) =>
              loc := if world.throws(a, all) then Leaving else Target(i, to);
              all := all + [a];
            case Choose(cond, yes, no) =>
              loc := Target(i, if world.holds(cond, all, c.IsChild()) then yes else no);
            case Go(to) =>
              loc := Target(i, to);
          }
      }
      left, steps := left - 1, steps + 1;
    }
    back := loc == Caller;
  }
}
