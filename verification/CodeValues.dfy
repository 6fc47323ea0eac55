/**
 More steps of the code generator (lcode.c): comparisons, `not`, and putting the value of an
 expression with pending jumps into a register.
 */
module CodeValues {
  import opened Bytecode
  import opened CodeExpr
  import opened CodeSteps

  // ----- comparisons -----

  /** The operand of an instruction: a register or a constant, without jumps. */
  ghost predicate IsOperand(v: View, o: Operand) {
    v.ts == [] && v.fs == [] && match o
      case Reg(r) => v.k == VNonReloc(r)
      case Kst(i) => v.k == VK(i)
  }

  /** The opcode for a comparison, what it has to accept, and whether its operands are exchanged. */
  function CmpCode(op: BinCmp): (CmpOp, bool, bool) {
    match op
    case CmpEq => (Eq, true, false)
    case CmpNe => (Eq, false, false)
    case CmpLt => (Lt, true, false)
    case CmpLe => (Le, true, false)
    case CmpGt => (Lt, true, true)
    case CmpGe => (Le, true, true)
  }

  function CmpInstr(op: BinCmp, o1: Operand, o2: Operand): Instr {
    var (code, accept, swapped) := CmpCode(op);
    if swapped then Cmp(code, accept, o2, o1) else Cmp(code, accept, o1, o2)
  }

  ghost predicate CmpEmitted(s: State, sd: State, s1: State, i: Instr) {
    Emitted(s, sd, s1) && s1 == sd.(c := sd.c + [i, Jmp(NO_JUMP)], pend := sd.pend + {|sd.c| + 1})
  }

  lemma KeptTrans(s0: State, s1: State, s2: State)
    requires Kept(s0, s1) && Kept(s1, s2)
    ensures Kept(s0, s2)
  {
    forall p | p in s0.pend ensures p in s2.pend && SameJump(s0.c, s2.c, p) {
      assert p in s1.pend && SameJump(s0.c, s1.c, p) && SameJump(s1.c, s2.c, p);
    }
    forall i | 0 <= i < |s0.c| ensures TMode(s2.c[i]) <==> TMode(s0.c[i]) {
      assert TMode(s2.c[i]) <==> TMode(s1.c[i]);
      assert TMode(s1.c[i]) <==> TMode(s0.c[i]);
    }
  }

  lemma CmpShape(s0: State, s1: State, v1: View, s2: State, v2: View, sd: State, s3: State, op: BinCmp, o1: Operand,
      o2: Operand)
    requires Shape(s0, s1, v1) && Shape(s1, s2, v2) && IsOperand(v1, o1) && IsOperand(v2, o2)
    requires CmpEmitted(s2, sd, s3, CmpInstr(op, o1, o2))
    ensures Shape(s0, s3, View(VJmp(|sd.c| + 1), [], []))
  {
    WfDischarge(s2, sd);
    assert InstrOk(s3, |sd.c|) && InstrOk(s3, |sd.c| + 1);
    WfAppend(sd, s3);
    KeptTrans(s0, s1, s2);
    EmitKept(s0, s2, sd, s3);
    forall p | p in s3.pend ensures |s0.c| <= p ==> p == |sd.c| + 1 {
      if p in s2.pend {
        assert p < |s1.c|;
        assert p in s1.pend;
      }
    }
  }

  lemma CmpExpr(s0: State, s1: State, v1: View, s2: State, v2: View, sd: State, s3: State, op: BinCmp, o1: Operand,
      o2: Operand,
      base: nat, base2: nat, xa: Expr, xb: Expr)
    requires Shape(s0, s1, v1) && ExprOk(s0, s1, v1, base, -1, xa) && IsOperand(v1, o1)
    requires Shape(s1, s2, v2) && ExprOk(s1, s2, v2, base2, -1, xb) && IsOperand(v2, o2)
    requires CmpEmitted(s2, sd, s3, CmpInstr(op, o1, o2))
    requires base <= base2 && (o1.Reg? ==> o1.r < base2) && LocalsBelow(xb, base)
    ensures ExprOk(s0, s3, View(VJmp(|sd.c| + 1), [], []), base, -1, ECmp(op, xa, xb))
  {
    var v3, x := View(VJmp(|sd.c| + 1), [], []), ECmp(op, xa, xb);
    forall env: Env, a: nat, regs: Regs | a <= Limit(s0) && Entry(s0.c, a)
      ensures ExprAt(env, s0, s3, v3, base, -1, x, a, regs)
    {
      assert ExprAt(env, s0, s1, v1, base, -1, xa, a, regs);
      KeptEntry(s0, s1, a);
      assert ExprAt(env, s1, s2, v2, base2, -1, xb, a, regs);
      CmpAt(env, s0, s1, v1, s2, v2, sd, s3, op, o1, o2, base, base2, xa, xb, a, regs);
    }
  }

  lemma CmpAt(env: Env, s0: State, s1: State, v1: View, s2: State, v2: View, sd: State, s3: State, op: BinCmp,
      o1: Operand, o2: Operand,
      base: nat, base2: nat, xa: Expr, xb: Expr, a: nat, regs: Regs)
    requires Wf(s0) && KindOk(s1, v1.k) && KindOk(s2, v2.k) && s1.k <= s2.k && |s1.c| <= |s2.c|
    requires ExprAt(env, s0, s1, v1, base, -1, xa, a, regs) && IsOperand(v1, o1)
    requires ExprAt(env, s1, s2, v2, base2, -1, xb, a, regs) && IsOperand(v2, o2)
    requires CmpEmitted(s2, sd, s3, CmpInstr(op, o1, o2))
    requires base <= base2 && (o1.Reg? ==> o1.r < base2) && LocalsBelow(xb, base)
    ensures ExprAt(env, s0, s3, View(VJmp(|sd.c| + 1), [], []), base, -1, ECmp(op, xa, xb), a, regs)
  {
    hide PatchedAt, LocalsBelow, Relocatable, Denotes, Carries, KindOk, CmpInstr;
    EmitRun(env, s2, sd, s3, a, regs);
    NeverStuck(env, s0, a, regs);
    var e0, e1, e2 := Run(env, s0, a, regs), Run(env, s1, a, regs), Run(env, s2, a, regs);
    if e0.Here? {
      assert e1.Here? && e2.Here?;
      Operands(env, s1, v1, s2, v2, s3, o1, o2, base, base2, xa, xb, e0.regs, e1.regs, e2.regs);
      CmpOut(env, s3, |s2.c|, op, o1, o2, base, xa, xb, e0.regs, e2.regs);
    }
  }

  lemma CmpOut(env: Env, s: State, n: nat, op: BinCmp, o1: Operand, o2: Operand, base: nat, xa: Expr, xb: Expr,
      r0: Regs, r2: Regs)
    requires n + 2 == |s.c| && s.c[n] == CmpInstr(op, o1, o2) && s.c[n + 1].Jmp? && n + 1 in s.pend && n + 1 !in s.here
    requires Fetch(s.k, o1, r2) == Eval(env, xa, r0) && Fetch(s.k, o2, r2) == Eval(env, xb, r0)
    requires Same(r0, r2, base, -1)
    ensures Out(env, s, View(VJmp(n + 1), [], []), base, -1, Eval(env, ECmp(op, xa, xb), r0), r0, Run(env, s, n, r2))
  {
    TestRun(env, s, n, r2);
  }

  /** Both operands have their values when the instruction comes. */
  lemma Operands(env: Env, s1: State, v1: View, s2: State, v2: View, s3: State, o1: Operand, o2: Operand,
      base: nat, base2: nat, xa: Expr, xb: Expr, r0: Regs, r1: Regs, r2: Regs)
    requires IsOperand(v1, o1) && IsOperand(v2, o2) && base <= base2 && (o1.Reg? ==> o1.r < base2)
    requires LocalsBelow(xb, base)
    requires KindOk(s1, v1.k) && KindOk(s2, v2.k) && s1.k <= s2.k && s2.k <= s3.k
    requires Same(r0, r1, base, -1) && Denotes(env, s1, v1.k, r1) == Eval(env, xa, r0)
    requires Same(r1, r2, base2, -1) && Denotes(env, s2, v2.k, r2) == Eval(env, xb, r1)
    ensures Fetch(s3.k, o1, r2) == Eval(env, xa, r0) && Fetch(s3.k, o2, r2) == Eval(env, xb, r0)
    ensures Same(r0, r2, base, -1)
  {
    EvalSame(env, xb, r0, r1, base);
  }

  // ----- not -----

  /** As `Out`, but the descriptor stands for the negation. */
  ghost predicate FlipAt(env: Env, s0: State, s: State, v: View, base: nat, x: Expr, a: nat, regs: Regs) {
    a <= |s0.c| && a <= |Body(s, v.k).c| &&
      match Run(env, s0, a, regs)
      case Stuck => true
      case Jump(p, r) => Run(env, Body(s, v.k), a, regs) == Jump(p, r)
      case Here(r0) =>
        match Run(env, Body(s, v.k), a, regs)
        case Stuck => false
        case Here(r1) => Same(r0, r1, base, -1) && Denotes(env, s, v.k, r1) == Bool(!Truthy(Eval(env, x, r0)))
        case Jump(p, r1) =>
          && Same(r0, r1, base, -1)
          && (if v.k.VJmp? && v.k.pc == p then Eval(env, x, r0) == Bool(false)
              else if p in v.ts then Truthy(Eval(env, x, r0)) else p in v.fs && !Truthy(Eval(env, x, r0)))
  }

  ghost predicate FlipOk(s0: State, s: State, v: View, base: nat, x: Expr) {
    forall env: Env, a: nat, regs: Regs {:trigger FlipAt(env, s0, s, v, base, x, a, regs)} ::
      a <= Limit(s0) && Entry(s0.c, a) ==> FlipAt(env, s0, s, v, base, x, a, regs)
  }

  /** A constant that counts as true. */
  ghost predicate Constant(s: State, k: Kind) {
    k.VTrue? || k.VKInt? || k.VKFlt? || (k.VK? && k.info < |s.k| && Truthy(s.k[k.info]))
  }

  lemma FlipConst(s0: State, s: State, v: View, base: nat, x: Expr, k: Kind)
    requires Shape(s0, s, v) && ExprOk(s0, s, v, base, -1, x)
    requires if k.VTrue? then v.k.VNil? || v.k.VFalse? else k.VFalse? && Constant(s, v.k)
    ensures FlipOk(s0, s, v.(k := k), base, x) && Shape(s0, s, v.(k := k))
  {
    forall env: Env, a: nat, regs: Regs | a <= Limit(s0) && Entry(s0.c, a)
      ensures FlipAt(env, s0, s, v.(k := k), base, x, a, regs)
    {
      assert ExprAt(env, s0, s, v, base, -1, x, a, regs);
    }
  }

  lemma FlipJump(s0: State, s: State, v: View, base: nat, x: Expr)
    requires Shape(s0, s, v) && ExprOk(s0, s, v, base, -1, x) && v.k.VJmp?
    ensures FlipOk(s0, Inverted(s), v, base, x) && Shape(s0, Inverted(s), v)
  {
    InvertShape(s0, s, v);
    forall env: Env, a: nat, regs: Regs | a <= Limit(s0) && Entry(s0.c, a)
      ensures FlipAt(env, s0, Inverted(s), v, base, x, a, regs)
    {
      assert ExprAt(env, s0, s, v, base, -1, x, a, regs);
      NeverStuck(env, s0, a, regs);
      RunJump(env, s0, a, regs);
      InvertRun(env, s, v.k, a, regs);
    }
  }

  lemma FlipNotShape(s0: State, s: State, v: View, sd: State, s1: State)
    requires Shape(s0, s, v) && v.k.VNonReloc? && Emitted(s, sd, s1) && s1 == sd.(c := sd.c + [Not(0, v.k.reg)])
    ensures Shape(s0, s1, v.(k := VReloc(|sd.c|))) && Body(s1, VReloc(|sd.c|)) == sd
  {
    WfDischarge(s, sd);
    assert InstrOk(s1, |sd.c|);
    WfAppend(sd, s1);
    EmitKept(s0, s, sd, s1);
  }

  lemma FlipNot(s0: State, s: State, v: View, sd: State, s1: State, base: nat, x: Expr)
    requires Shape(s0, s, v) && ExprOk(s0, s, v, base, -1, x)
    requires v.k.VNonReloc? && Emitted(s, sd, s1) && s1 == sd.(c := sd.c + [Not(0, v.k.reg)])
    ensures FlipOk(s0, s1, v.(k := VReloc(|sd.c|)), base, x) && Shape(s0, s1, v.(k := VReloc(|sd.c|)))
  {
    FlipNotShape(s0, s, v, sd, s1);
    var v1 := v.(k := VReloc(|sd.c|));
    WfDischarge(s, sd);
    forall env: Env, a: nat, regs: Regs | a <= Limit(s0) && Entry(s0.c, a)
      ensures FlipAt(env, s0, s1, v1, base, x, a, regs)
    {
      assert ExprAt(env, s0, s, v, base, -1, x, a, regs);
      SameRun(env, s, sd, a, regs);
    }
  }

  /** `removevalues`: the tests of the jumps in `l` lose their target registers. */
  ghost predicate Unvalued(s: State, s1: State, l: set<int>) {
    && |s1.c| == |s.c| && s1 == s.(c := s1.c)
    && forall i {:trigger s1.c[i]} :: 0 <= i < |s.c| ==>
      s1.c[i] == if i + 1 in l && s.c[i].TestSet? then Test(s.c[i].b, s.c[i].cond) else s.c[i]
  }

  lemma UnvaluedShape(s0: State, s: State, v: View, s1: State)
    requires Shape(s0, s, v) && Unvalued(s, s1, Elems(v.ts) + Elems(v.fs))
    ensures Shape(s0, s1, View(v.k, v.fs, v.ts)) && Edited(s, s1)
    ensures forall p {:trigger Controlled(s1.c, p)} :: p in v.ts || p in v.fs ==> !Controlled(s1.c, p)
  {
    var l := Elems(v.ts) + Elems(v.fs);
    forall i | 0 <= i < |s.c| ensures EditOk(s, s1, i) && (TMode(s1.c[i]) <==> TMode(s.c[i])) {
      assert InstrOk(s, i);
      assert i + 1 in l ==> i + 1 in s.pend;
    }
    WfEdit(s, s1);
    forall p | p in s0.pend ensures p in s1.pend && SameJump(s0.c, s1.c, p) {
      assert SameJump(s0.c, s.c, p) && p in s.pend && p !in v.ts && p !in v.fs;
      assert p !in l && s.c[p].Jmp?;
    }
    forall i | 0 <= i < |s0.c| ensures TMode(s1.c[i]) <==> TMode(s0.c[i]) {
      assert TMode(s.c[i]) <==> TMode(s0.c[i]);
    }
    forall p | p in v.ts || p in v.fs ensures !Controlled(s1.c, p) {
      assert p in l;
    }
    UnvaluedBody(s0, s, v, s1);
  }

  lemma UnvaluedBody(s0: State, s: State, v: View, s1: State)
    requires Shape(s0, s, v) && Unvalued(s, s1, Elems(v.ts) + Elems(v.fs))
    ensures KindOk(s1, v.k) && Edited(Body(s, v.k), Body(s1, v.k))
    ensures v.k.VReloc? ==> s1.c[|s.c| - 1] == s.c[|s.c| - 1]
  {
    var b, b1 := Body(s, v.k), Body(s1, v.k);
    forall i | 0 <= i < |b.c| ensures EditOk(b, b1, i) {
      assert InstrOk(s, i);
      assert i + 1 in Elems(v.ts) + Elems(v.fs) ==> i + 1 in s.pend;
    }
  }

  lemma NotExpr(s0: State, s: State, v: View, s1: State, base: nat, x: Expr)
    requires Shape(s0, s, v) && FlipOk(s0, s, v, base, x) && Unvalued(s, s1, Elems(v.ts) + Elems(v.fs))
    ensures Shape(s0, s1, View(v.k, v.fs, v.ts)) && ExprOk(s0, s1, View(v.k, v.fs, v.ts), base, -1, ENot(x))
  {
    UnvaluedShape(s0, s, v, s1);
    UnvaluedBody(s0, s, v, s1);
    WfBody(s, v.k);
    var v1 := View(v.k, v.fs, v.ts);
    forall env: Env, a: nat, regs: Regs | a <= Limit(s0) && Entry(s0.c, a)
      ensures ExprAt(env, s0, s1, v1, base, -1, ENot(x), a, regs)
    {
      assert FlipAt(env, s0, s, v, base, x, a, regs);
      SameRun(env, Body(s, v.k), Body(s1, v.k), a, regs);
      NotAt(env, s0, s, v, s1, base, x, a, regs);
    }
  }

  lemma NotAt(env: Env, s0: State, s: State, v: View, s1: State, base: nat, x: Expr, a: nat, regs: Regs)
    requires FlipAt(env, s0, s, v, base, x, a, regs) && |Body(s1, v.k).c| == |Body(s, v.k).c| && s1.k == s.k
    requires Run(env, Body(s1, v.k), a, regs) == Run(env, Body(s, v.k), a, regs)
    requires |s1.c| == |s.c| && (v.k.VReloc? && |s.c| > 0 ==> s1.c[|s.c| - 1] == s.c[|s.c| - 1])
    requires forall p {:trigger Controlled(s1.c, p)} :: p in v.ts || p in v.fs ==> !Controlled(s1.c, p)
    requires forall p {:trigger p in v.ts} :: p in v.ts ==> p !in v.fs
    ensures ExprAt(env, s0, s1, View(v.k, v.fs, v.ts), base, -1, ENot(x), a, regs)
  {
    var e := Run(env, Body(s, v.k), a, regs);
    if e.Jump? {
      assert e.p in v.ts || e.p in v.fs ==> !Controlled(s1.c, e.p);
    }
  }

  // ----- descriptors -----

  /** Another kind for the same value. */
  lemma Renamed(s0: State, s: State, v: View, k: Kind, base: nat, x: Expr)
    requires Shape(s0, s, v) && ExprOk(s0, s, v, base, -1, x) && KindOk(s, k)
    requires !v.k.VReloc? && !v.k.VJmp? && !k.VReloc? && !k.VJmp?
    requires forall env: Env, regs: Regs :: Denotes(env, s, k, regs) == Denotes(env, s, v.k, regs)
    ensures Shape(s0, s, v.(k := k)) && ExprOk(s0, s, v.(k := k), base, -1, x)
  {
    forall env: Env, a: nat, regs: Regs | a <= Limit(s0) && Entry(s0.c, a)
      ensures ExprAt(env, s0, s, v.(k := k), base, -1, x, a, regs)
    {
      assert ExprAt(env, s0, s, v, base, -1, x, a, regs);
    }
  }

  /** A register at `base` or above may be written without notice. */
  lemma Exempt(s0: State, s: State, v: View, base: nat, exc: int, exc1: int, x: Expr)
    requires Shape(s0, s, v) && ExprOk(s0, s, v, base, exc, x) && (exc == -1 || exc >= base)
    ensures ExprOk(s0, s, v, base, exc1, x)
  {
    forall env: Env, a: nat, regs: Regs | a <= Limit(s0) && Entry(s0.c, a)
      ensures ExprAt(env, s0, s, v, base, exc1, x, a, regs)
    {
      assert ExprAt(env, s0, s, v, base, exc, x, a, regs);
    }
  }

  lemma UpvalShape(s0: State, s: State, v: View, sd: State, s1: State)
    requires Shape(s0, s, v) && v.k.VUpval? && Emitted(s, sd, s1) && s1 == sd.(c := sd.c + [GetUpval(0, v.k.up)])
    ensures Shape(s0, s1, v.(k := VReloc(|sd.c|))) && Body(s1, VReloc(|sd.c|)) == sd
  {
    WfDischarge(s, sd);
    assert InstrOk(s1, |sd.c|);
    WfAppend(sd, s1);
    EmitKept(s0, s, sd, s1);
  }

  lemma UpvalExpr(s0: State, s: State, v: View, sd: State, s1: State, base: nat, x: Expr)
    requires Shape(s0, s, v) && ExprOk(s0, s, v, base, -1, x)
    requires v.k.VUpval? && Emitted(s, sd, s1) && s1 == sd.(c := sd.c + [GetUpval(0, v.k.up)])
    ensures ExprOk(s0, s1, v.(k := VReloc(|sd.c|)), base, -1, x) && Shape(s0, s1, v.(k := VReloc(|sd.c|)))
  {
    UpvalShape(s0, s, v, sd, s1);
    var v1 := v.(k := VReloc(|sd.c|));
    WfDischarge(s, sd);
    forall env: Env, a: nat, regs: Regs | a <= Limit(s0) && Entry(s0.c, a)
      ensures ExprAt(env, s0, s1, v1, base, -1, x, a, regs)
    {
      assert ExprAt(env, s0, s, v, base, -1, x, a, regs);
      SameRun(env, s, sd, a, regs);
      var e := Run(env, s, a, regs);
      if Run(env, s0, a, regs).Here? && e.Jump? {
        EmitCarries(s0, s, v, sd, s1, e.p);
      }
    }
  }

  /** A descriptor for which no code is needed yet; constants may have been added. */
  lemma Init(s0: State, k1: seq<Value>, k: Kind, base: nat, x: Expr)
    requires Wf(s0) && s0.k <= k1 && !k.VReloc? && !k.VJmp? && KindOk(s0.(k := k1), k)
    requires forall env: Env, regs: Regs :: Denotes(env, s0.(k := k1), k, regs) == Eval(env, x, regs)
    ensures Shape(s0, s0.(k := k1), View(k, [], [])) && ExprOk(s0, s0.(k := k1), View(k, [], []), base, -1, x)
  {
    var s := s0.(k := k1);
    forall i | 0 <= i < |s0.c| ensures EditOk(s0, s, i) && SameJump(s0.c, s.c, i) {
    }
    WfEdit(s0, s);
    forall env: Env, a: nat, regs: Regs | a <= Limit(s0) && Entry(s0.c, a)
      ensures ExprAt(env, s0, s, View(k, [], []), base, -1, x, a, regs)
    {
      SameRun(env, s0, s, a, regs);
      RunJump(env, s0, a, regs);
      NeverStuck(env, s0, a, regs);
    }
  }

  /** More constants. */
  lemma Grown(s0: State, s: State, v: View, k1: seq<Value>, k: Kind, base: nat, x: Expr)
    requires Shape(s0, s, v) && ExprOk(s0, s, v, base, -1, x) && s.k <= k1 && KindOk(s.(k := k1), k)
    requires !v.k.VReloc? && !v.k.VJmp? && !k.VReloc? && !k.VJmp?
    requires forall env: Env, regs: Regs :: Denotes(env, s.(k := k1), k, regs) == Denotes(env, s, v.k, regs)
    ensures Shape(s0, s.(k := k1), v.(k := k)) && ExprOk(s0, s.(k := k1), v.(k := k), base, -1, x)
  {
    var s1 := s.(k := k1);
    forall i | 0 <= i < |s.c| ensures EditOk(s, s1, i) {
    }
    WfEdit(s, s1);
    forall p | p in s0.pend ensures p in s1.pend && SameJump(s0.c, s1.c, p) {
      assert p in s.pend && SameJump(s0.c, s.c, p);
    }
    forall i | 0 <= i < |s0.c| ensures TMode(s1.c[i]) <==> TMode(s0.c[i]) {
      assert TMode(s.c[i]) <==> TMode(s0.c[i]);
    }
    forall env: Env, a: nat, regs: Regs | a <= Limit(s0) && Entry(s0.c, a)
      ensures ExprAt(env, s0, s1, v.(k := k), base, -1, x, a, regs)
    {
      assert ExprAt(env, s0, s, v, base, -1, x, a, regs);
      SameRun(env, s, s1, a, regs);
    }
  }
}
