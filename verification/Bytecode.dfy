/**
 The meaning of the instructions that the code generator emits for expressions, as the comments of
 lopcodes.h give it, for code that is still being generated: jumps that wait in a patch list are
 exits of the code, and its end is the other exit.
 */
module Bytecode {

  datatype Value = Nil | Bool(b: bool) | Int(i: int) | Flt(r: real) | Str(s: string)

  predicate Truthy(v: Value) {
    v != Nil && v != Bool(false)
  }

  datatype CmpOp = Eq | Lt | Le

  /** Upvalues, and the comparisons of values (without metamethods). */
  datatype Env = Env(up: nat -> Value, eq: (Value, Value) -> bool, lt: (Value, Value) -> bool,
      le: (Value, Value) -> bool)

  function Compare(env: Env, op: CmpOp, v: Value, w: Value): bool {
    match op
    case Eq => env.eq(v, w)
    case Lt => env.lt(v, w)
    case Le => env.le(v, w)
  }

  /** A value that is no register; registers are not bounded here. */
  const NO_REG := -1
  const NO_JUMP := -1

  datatype Operand = Reg(r: nat) | Kst(k: nat)

  datatype Instr =
    | Move(a: nat, b: nat)
    | LoadK(a: nat, bx: nat)
    | LoadBool(a: nat, value: bool, skip: bool)
    | LoadNil(a: nat, n: nat)
    | GetUpval(a: nat, u: nat)
    | Not(a: nat, b: nat)
    | Jmp(sbx: int)
    | Cmp(op: CmpOp, accept: bool, rb: Operand, rc: Operand)
    | Test(tested: nat, cond: bool)
    | TestSet(target: int, b: nat, cond: bool)

  /** `testTMode`: the next instruction must be a jump. */
  predicate TMode(i: Instr) {
    i.Cmp? || i.Test? || i.TestSet?
  }

  type Regs = nat -> Value

  function Set(regs: Regs, r: int, v: Value): Regs {
    (x: nat) => if x == r then v else regs(x)
  }

  function SetNils(regs: Regs, from: nat, to: int): Regs {
    (x: nat) => if from <= x <= to then Nil else regs(x)
  }

  function Const(k: seq<Value>, i: nat): Value {
    if i < |k| then k[i] else Nil
  }

  function Fetch(k: seq<Value>, o: Operand, regs: Regs): Value {
    match o
    case Reg(r) => regs(r)
    case Kst(i) => Const(k, i)
  }

  /** The registers after an instruction that is not a pending jump. */
  function Effect(env: Env, k: seq<Value>, i: Instr, regs: Regs): Regs {
    match i
    case Move(a, b) => Set(regs, a, regs(b))
    case LoadK(a, bx) => Set(regs, a, Const(k, bx))
    case LoadBool(a, value, _) => Set(regs, a, Bool(value))
    case LoadNil(a, n) => SetNils(regs, a, a + n)
    case GetUpval(a, u) => Set(regs, a, env.up(u))
    case Not(a, b) => Set(regs, a, Bool(!Truthy(regs(b))))
    case TestSet(a, b, cond) => if Truthy(regs(b)) == cond && a != NO_REG then Set(regs, a, regs(b)) else regs
    case _ => regs
  }

  /** How far the program counter goes on. */
  function Advance(env: Env, k: seq<Value>, i: Instr, regs: Regs): int {
    match i
    case Jmp(d) => 1 + d
    case Cmp(op, accept, b, c) => if Compare(env, op, Fetch(k, b, regs), Fetch(k, c, regs)) == accept then 1 else 2
    case Test(a, cond) => if Truthy(regs(a)) == cond then 1 else 2
    case TestSet(_, b, cond) => if Truthy(regs(b)) == cond then 1 else 2
    case LoadBool(_, _, skip) => if skip then 2 else 1
    case _ => 1
  }

  /** Code with its constants, the jumps to the end of it (`jpc`), the pending jumps, and the last label. */
  datatype State = State(c: seq<Instr>, k: seq<Value>, here: set<int>, pend: set<int>, lasttarget: nat)

  datatype Exit = Here(regs: Regs) | Jump(p: int, regs: Regs) | Stuck

  /** Runs the code from `a` to where it leaves the part that is there. Expressions only jump forward. */
  ghost function Run(env: Env, s: State, a: nat, regs: Regs): Exit
    requires a <= |s.c|
    decreases |s.c| - a
  {
    if a == |s.c| then Here(regs)
    else if s.c[a].Jmp? && a in s.here then Here(regs)
    else if s.c[a].Jmp? && a in s.pend then Jump(a, regs)
    else
      var d := Advance(env, s.k, s.c[a], regs);
      if 0 < d && a + d <= |s.c| then Run(env, s, a + d, Effect(env, s.k, s.c[a], regs)) else Stuck
  }

  /** A place that code can be entered at other than from the instruction before it. */
  predicate Entry(c: seq<Instr>, a: int) {
    0 <= a <= |c| && (a > 0 ==> !TMode(c[a - 1]))
  }

  ghost predicate JumpNext(s: State, i: int) {
    0 <= i && i + 1 < |s.c| && s.c[i + 1].Jmp?
  }

  predicate OperandOk(k: seq<Value>, o: Operand) {
    o.Kst? ==> o.k < |k|
  }

  ghost predicate InstrOk(s: State, i: int)
    requires 0 <= i < |s.c|
  {
    match s.c[i]
    case Jmp(d) => i in s.here || i in s.pend || (0 <= d && i + 1 + d <= s.lasttarget && Entry(s.c, i + 1 + d))
    case Cmp(_, _, b, c) => JumpNext(s, i) && OperandOk(s.k, b) && OperandOk(s.k, c)
    case Test(_, _) => JumpNext(s, i)
    case TestSet(a, _, _) => JumpNext(s, i) && NO_REG <= a && (a == NO_REG <==> i + 1 in s.here || i + 1 in s.pend)
    case LoadBool(_, _, skip) => skip ==> i + 2 <= s.lasttarget && Entry(s.c, i + 2)
    case LoadK(_, bx) => bx < |s.k|
    case _ => true
  }

  ghost predicate Wf(s: State) {
    && s.lasttarget <= |s.c|
    && (forall p {:trigger p in s.here} :: p in s.here ==> 0 <= p < |s.c| && s.c[p].Jmp? && p !in s.pend)
    && (forall p {:trigger p in s.pend} :: p in s.pend ==> 0 <= p < |s.c| && s.c[p].Jmp?)
    && (s.here != {} ==> s.lasttarget == |s.c|)
    && (forall i {:trigger InstrOk(s, i)} :: 0 <= i < |s.c| ==> InstrOk(s, i))
  }

  lemma {:induction false} NeverStuck(env: Env, s: State, a: nat, regs: Regs)
    requires Wf(s) && a <= |s.c|
    ensures !Run(env, s, a, regs).Stuck?
    decreases |s.c| - a
  {
    if a < |s.c| {
      assert InstrOk(s, a);
      if !(s.c[a].Jmp? && (a in s.here || a in s.pend)) {
        NeverStuck(env, s, a + Advance(env, s.k, s.c[a], regs), Effect(env, s.k, s.c[a], regs));
      }
    }
  }

  // ----- changes that do not matter to a run -----

  /** Links of pending jumps may change, jumps to the end may be resolved, and a test may lose its target register. */
  ghost predicate EditOk(s: State, s1: State, i: int)
    requires 0 <= i < |s.c| == |s1.c|
  {
    || s1.c[i] == s.c[i]
    || (s.c[i].TestSet? && s.c[i].target == NO_REG && s1.c[i] == Test(s.c[i].b, s.c[i].cond))
    || (s.c[i].Jmp? && s1.c[i].Jmp? && (i in s.pend || i in s.here))
  }

  ghost predicate Edited(s: State, s1: State) {
    && |s1.c| == |s.c| && s.k <= s1.k && s1.pend == s.pend
    && (forall i {:trigger EditOk(s, s1, i)} :: 0 <= i < |s.c| ==> EditOk(s, s1, i))
    && (s1.here == s.here || (s1.here == {} && forall p :: p in s.here ==>
      0 <= p < |s.c| && s1.c[p] == Jmp(|s.c| - p - 1)))
  }

  lemma {:induction false} SameRun(env: Env, s: State, s1: State, a: nat, regs: Regs)
    requires Wf(s) && Edited(s, s1) && a <= |s.c|
    ensures Run(env, s1, a, regs) == Run(env, s, a, regs)
    decreases |s.c| - a
  {
    if a < |s.c| {
      assert InstrOk(s, a) && EditOk(s, s1, a);
      if !(s.c[a].Jmp? && (a in s.here || a in s.pend)) {
        var d := Advance(env, s.k, s.c[a], regs);
        assert Advance(env, s1.k, s1.c[a], regs) == d && Effect(env, s1.k, s1.c[a], regs) == Effect(env, s.k, s.c[a],
          regs);
        if 0 < d && a + d <= |s.c| {
          SameRun(env, s, s1, a + d, Effect(env, s.k, s.c[a], regs));
        }
      }
    }
  }

  /** Jumps wait for the end instead of being pending. */
  ghost function ToHere(s: State, l: set<int>): State {
    s.(here := s.here + l, pend := s.pend - l, lasttarget := |s.c|)
  }

  ghost function Arrive(e: Exit, l: set<int>): Exit {
    if e.Jump? && e.p in l then Here(e.regs) else e
  }

  lemma {:induction false} ToHereRun(env: Env, s: State, l: set<int>, a: nat, regs: Regs)
    requires l <= s.pend && a <= |s.c|
    ensures Run(env, ToHere(s, l), a, regs) == Arrive(Run(env, s, a, regs), l)
    decreases |s.c| - a
  {
    if a < |s.c| && !(s.c[a].Jmp? && (a in s.here || a in s.pend)) {
      var d := Advance(env, s.k, s.c[a], regs);
      if 0 < d && a + d <= |s.c| {
        ToHereRun(env, s, l, a + d, Effect(env, s.k, s.c[a], regs));
      }
    }
  }

  // ----- new instructions -----

  /** `s1` has more code after that of `s`, which no jump waits for the end of. */
  ghost predicate Appended(s: State, s1: State) {
    && s.here == {} && s.c <= s1.c && s.k <= s1.k
    && (forall p :: 0 <= p < |s.c| ==> p !in s1.here && (p in s1.pend <==> p in s.pend))
  }

  ghost function Then(env: Env, s1: State, at: nat, e: Exit): Exit
    requires at <= |s1.c|
  {
    if e.Here? then Run(env, s1, at, e.regs) else e
  }

  /** What happens at the end of the old code happens in the new code. */
  lemma {:induction false} AppendRun(env: Env, s: State, s1: State, a: nat, regs: Regs)
    requires Wf(s) && Appended(s, s1) && a <= |s.c|
    ensures Run(env, s1, a, regs) == Then(env, s1, |s.c|, Run(env, s, a, regs))
    decreases |s.c| - a
  {
    if a < |s.c| {
      assert InstrOk(s, a) && s1.c[a] == s.c[a];
      if !(s.c[a].Jmp? && a in s.pend) {
        var d := Advance(env, s.k, s.c[a], regs);
        if 0 < d && a + d <= |s.c| {
          AppendRun(env, s, s1, a + d, Effect(env, s.k, s.c[a], regs));
        }
      }
    }
  }

  // ----- patching -----

  /** The control of a jump with a new target register. */
  function Retarget(i: Instr, reg: int): Instr
    requires i.TestSet?
  {
    if reg != NO_REG && reg != i.b then i.(target := reg) else Test(i.b, i.cond)
  }

  predicate Controlled(c: seq<Instr>, p: int) {
    0 < p < |c| && c[p - 1].TestSet?
  }

  /** The jumps in `l` get targets: `vt` for those that leave a value in `reg`, `dt` for the others. */
  ghost predicate PatchedAt(c: seq<Instr>, c1: seq<Instr>, l: set<int>, reg: int, vt: int, dt: int, i: int)
    requires 0 <= i < |c| == |c1|
  {
    if i in l then c1[i] == Jmp((if Controlled(c, i) then vt else dt) - i - 1)
    else if i + 1 in l && c[i].TestSet? then c1[i] == Retarget(c[i], reg)
    else c1[i] == c[i]
  }

  ghost predicate Patched(c: seq<Instr>, c1: seq<Instr>, l: set<int>, reg: int, vt: int, dt: int) {
    |c1| == |c| && forall i {:trigger PatchedAt(c, c1, l, reg, vt, dt, i)} :: 0 <= i < |c| ==>
      PatchedAt(c, c1, l, reg, vt, dt, i)
  }

  /** The registers with the value of `b` left in `reg`. */
  function Leave(regs: Regs, reg: nat, b: nat): Regs {
    if reg == b then regs else Set(regs, reg, regs(b))
  }

  /** Where a patched jump goes on, and with which registers. */
  ghost function Resume(env: Env, s: State, s1: State, l: set<int>, reg: nat, vt: nat, dt: nat, e: Exit): Exit
    requires vt <= |s1.c| && dt <= |s1.c|
  {
    if e.Jump? && e.p in l then
      if Controlled(s.c, e.p) then Run(env, s1, vt, Leave(e.regs, reg, s.c[e.p - 1].b))
      else Run(env, s1, dt, e.regs)
    else e
  }

  ghost predicate CanPatch(s: State, s1: State, l: set<int>, reg: nat, vt: nat, dt: nat) {
    && Wf(s) && l <= s.pend && Patched(s.c, s1.c, l, reg, vt, dt) && s1.k == s.k && s1.pend == s.pend - l
      && s1.here == s.here
    && vt <= |s.c| && dt <= |s.c| && (forall p :: p in l ==> p < vt && p < dt)
  }

  lemma {:induction false} PatchRun(env: Env, s: State, s1: State, l: set<int>, reg: nat, vt: nat, dt: nat, a: nat,
      regs: Regs)
    requires CanPatch(s, s1, l, reg, vt, dt) && Entry(s.c, a)
    ensures Run(env, s1, a, regs) == Resume(env, s, s1, l, reg, vt, dt, Run(env, s, a, regs))
    decreases |s.c| - a
  {
    if a < |s.c| {
      assert InstrOk(s, a) && PatchedAt(s.c, s1.c, l, reg, vt, dt, a);
      var d := Advance(env, s.k, s.c[a], regs);
      if s.c[a].Jmp? {
        if a !in s.here && a !in s.pend {
          PatchRun(env, s, s1, l, reg, vt, dt, a + d, regs);
        }
      } else if TMode(s.c[a]) && d == 1 {
        PatchTest(env, s, s1, l, reg, vt, dt, a, regs);
      } else {
        PatchRun(env, s, s1, l, reg, vt, dt, a + d, Effect(env, s.k, s.c[a], regs));
      }
    }
  }

  /** A test that goes on to the jump it controls. */
  lemma PatchTest(env: Env, s: State, s1: State, l: set<int>, reg: nat, vt: nat, dt: nat, a: nat, regs: Regs)
    requires CanPatch(s, s1, l, reg, vt, dt) && a < |s.c| && TMode(s.c[a]) && Advance(env, s.k, s.c[a], regs) == 1
    ensures Run(env, s1, a, regs) == Resume(env, s, s1, l, reg, vt, dt, Run(env, s, a, regs))
    decreases |s.c| - a, 0
  {
    assert InstrOk(s, a) && InstrOk(s, a + 1);
    assert PatchedAt(s.c, s1.c, l, reg, vt, dt, a) && PatchedAt(s.c, s1.c, l, reg, vt, dt, a + 1);
    var after := Effect(env, s.k, s.c[a], regs);
    assert Run(env, s, a, regs) == Run(env, s, a + 1, after);
    if a + 1 in l {
      assert Run(env, s, a + 1, after) == Jump(a + 1, after);
    } else {
      assert Run(env, s1, a, regs) == Run(env, s1, a + 1, after);
      if a + 1 !in s.here && a + 1 !in s.pend {
        PatchRun(env, s, s1, l, reg, vt, dt, a + 1 + Advance(env, s.k, s.c[a + 1], after), after);
      }
    }
  }

  // ----- code stays well formed -----

  lemma EndEntry(s: State)
    requires Wf(s)
    ensures Entry(s.c, |s.c|)
  {
    if |s.c| > 0 {
      assert InstrOk(s, |s.c| - 1);
    }
  }

  lemma WfToHere(s: State, l: set<int>)
    requires Wf(s) && l <= s.pend
    ensures Wf(ToHere(s, l))
  {
    forall i | 0 <= i < |s.c| ensures InstrOk(ToHere(s, l), i) {
      assert InstrOk(s, i);
    }
  }

  lemma WfAppend(s: State, s1: State)
    requires Wf(s) && Appended(s, s1)
    requires s.lasttarget <= s1.lasttarget <= |s1.c|
    requires forall i :: |s.c| <= i < |s1.c| ==> InstrOk(s1, i)
    requires forall p :: p in s1.here || p in s1.pend ==> 0 <= p < |s1.c| && s1.c[p].Jmp?
    requires s1.here !! s1.pend && (s1.here != {} ==> s1.lasttarget == |s1.c|)
    ensures Wf(s1)
  {
    forall i | 0 <= i < |s1.c| ensures InstrOk(s1, i) {
      if i < |s.c| {
        assert InstrOk(s, i);
        assert forall x :: 0 <= x <= |s.c| && Entry(s.c, x) ==> Entry(s1.c, x);
      }
    }
  }

  /** Jumps to the end are resolved, and need no values. */
  lemma WfDischarge(s: State, s1: State)
    requires Wf(s) && Patched(s.c, s1.c, s.here, NO_REG, |s.c|, |s.c|) && s1 == s.(c := s1.c, here := {})
    ensures Wf(s1) && Edited(s, s1)
  {
    EndEntry(s);
    forall i | 0 <= i < |s.c| ensures EditOk(s, s1, i) && (TMode(s1.c[i]) <==> TMode(s.c[i]))
      && (s1.c[i].Jmp? <==> s.c[i].Jmp?) {
      assert InstrOk(s, i) && PatchedAt(s.c, s1.c, s.here, NO_REG, |s.c|, |s.c|, i);
    }
    forall p | p in s.here ensures s1.c[p] == Jmp(|s.c| - p - 1) {
      assert PatchedAt(s.c, s1.c, s.here, NO_REG, |s.c|, |s.c|, p);
    }
    forall x | Entry(s.c, x) ensures Entry(s1.c, x) {
    }
    forall i | 0 <= i < |s.c| ensures InstrOk(s1, i) {
      assert InstrOk(s, i) && PatchedAt(s.c, s1.c, s.here, NO_REG, |s.c|, |s.c|, i);
    }
  }

  /** Links of pending jumps change, or their tests lose the target register. */
  lemma WfEdit(s: State, s1: State)
    requires Wf(s) && Edited(s, s1) && s1.here == s.here && s1.lasttarget == s.lasttarget
    ensures Wf(s1)
  {
    forall i | 0 <= i < |s.c| ensures (TMode(s1.c[i]) <==> TMode(s.c[i])) && (s1.c[i].Jmp? <==> s.c[i].Jmp?) {
      assert EditOk(s, s1, i);
    }
    forall x | Entry(s.c, x) ensures Entry(s1.c, x) {
    }
    forall i | 0 <= i < |s.c| ensures InstrOk(s1, i) {
      assert InstrOk(s, i) && EditOk(s, s1, i);
      assert i + 1 < |s.c| ==> (s1.c[i + 1].Jmp? <==> s.c[i + 1].Jmp?);
    }
  }

  lemma WfPatch(s: State, s1: State, l: set<int>, reg: nat, vt: nat, dt: nat)
    requires CanPatch(s, s1, l, reg, vt, dt) && s1.lasttarget == s.lasttarget && vt <= s.lasttarget
    requires dt <= s.lasttarget
    requires Entry(s.c, vt) && Entry(s.c, dt)
    ensures Wf(s1)
  {
    forall i | 0 <= i < |s.c| ensures (TMode(s1.c[i]) <==> TMode(s.c[i])) && (s1.c[i].Jmp? <==> s.c[i].Jmp?) {
      assert PatchedAt(s.c, s1.c, l, reg, vt, dt, i);
    }
    forall x | Entry(s.c, x) ensures Entry(s1.c, x) {
    }
    forall i | 0 <= i < |s.c| ensures InstrOk(s1, i) {
      assert InstrOk(s, i) && PatchedAt(s.c, s1.c, l, reg, vt, dt, i);
      assert i + 1 < |s.c| ==> (s1.c[i + 1].Jmp? <==> s.c[i + 1].Jmp?);
    }
  }
}
