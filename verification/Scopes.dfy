/**
 How the parser finds out what a name refers to (lparser.c): a local variable of the current function,
 an upvalue, which is added to every function between the use and the declaration, or a global. Upvalues
 are found again by name.
 */
module Scopes {
  type Name = string

  const ENV: Name := "_ENV"
  const MAXUPVAL: nat := 255
  const MAXVARS: nat := 200

  datatype Upvaldesc = Upvaldesc(name: Name, instack: bool, idx: nat)

  datatype Block = Block(nactvar: nat, upval: bool)

  /** `FuncState`; the current block is the last one, and so is the current function in a list of them. */
  datatype Func = Func(firstlocal: nat, nactvar: nat, blocks: seq<Block>, upvalues: seq<Upvaldesc>)

  // ----- what names mean -----

  /** Where a value is when the function at `level` runs: in a register of that function, or outside of the chunk. */
  datatype Place = Global | Register(level: nat, reg: nat) | Environment

  /** The local variables of a function that are visible. */
  function Locals(fs: seq<Func>, actvar: seq<Name>, k: nat): seq<Name>
    requires k < |fs| && fs[k].firstlocal + fs[k].nactvar <= |actvar|
  {
    actvar[fs[k].firstlocal..fs[k].firstlocal + fs[k].nactvar]
  }

  /** The innermost declaration: the last one with the name. */
  function LastOf(names: seq<Name>, n: Name): (i: int)
    ensures -1 <= i < |names|
    ensures i >= 0 ==> names[i] == n
    ensures forall j :: i < j < |names| ==> names[j] != n
  {
    if names == [] then -1
    else if names[|names| - 1] == n then |names| - 1
    else LastOf(names[..|names| - 1], n)
  }

  ghost predicate Nested(fs: seq<Func>, actvar: seq<Name>) {
    forall k {:trigger Fits(fs, actvar, k)} :: 0 <= k < |fs| ==> Fits(fs, actvar, k)
  }

  ghost predicate Fits(fs: seq<Func>, actvar: seq<Name>, k: int) {
    0 <= k < |fs| ==> fs[k].firstlocal + fs[k].nactvar <= if k + 1 < |fs| then Start(fs, k + 1) else |actvar|
  }

  ghost function Start(fs: seq<Func>, k: int): nat {
    if 0 <= k < |fs| then fs[k].firstlocal else 0
  }

  /** Lexical scoping: the innermost visible declaration, looked up from function `k` outwards. */
  ghost function Resolve(fs: seq<Func>, actvar: seq<Name>, k: int, n: Name): Place
    requires k < |fs| && Within(fs, actvar)
    decreases k
  {
    if k < 0 then if n == ENV then Environment else Global
    else
      var i := LastOf(Locals(fs, actvar, k), n);
      if i >= 0 then Register(k, i) else Resolve(fs, actvar, k - 1, n)
  }

  ghost predicate Within(fs: seq<Func>, actvar: seq<Name>) {
    forall k {:trigger fs[k]} :: 0 <= k < |fs| ==> fs[k].firstlocal + fs[k].nactvar <= |actvar|
  }

  /** What an upvalue is, followed outwards through the descriptors. */
  ghost function Follow(fs: seq<Func>, k: nat, idx: nat): Place
    requires k < |fs|
    decreases k
  {
    if idx >= |fs[k].upvalues| then Global
    else if k == 0 then Environment
    else if fs[k].upvalues[idx].instack then Register(k - 1, fs[k].upvalues[idx].idx)
    else Follow(fs, k - 1, fs[k].upvalues[idx].idx)
  }

  /** The block that declares a register: the innermost one that was entered before. */
  ghost function BlockOf(blocks: seq<Block>, reg: nat): (b: int)
    ensures -1 <= b < |blocks|
    ensures b >= 0 ==> blocks[b].nactvar <= reg
    ensures forall j :: b < j < |blocks| ==> blocks[j].nactvar > reg
  {
    if blocks == [] then -1
    else if blocks[|blocks| - 1].nactvar <= reg then |blocks| - 1
    else BlockOf(blocks[..|blocks| - 1], reg)
  }

  // ----- the invariant -----

  /** The descriptor leads to what its name means outside of the function that has it. */
  ghost predicate Cached(fs: seq<Func>, actvar: seq<Name>, k: nat, idx: nat)
    requires k < |fs| && Within(fs, actvar)
  {
    idx < |fs[k].upvalues| ==>
      Follow(fs, k, idx) != Global && Follow(fs, k, idx) == Resolve(fs, actvar, k - 1, fs[k].upvalues[idx].name)
  }

  ghost predicate CacheOk(fs: seq<Func>, actvar: seq<Name>)
    requires Within(fs, actvar)
  {
    forall k: nat, idx: nat {:trigger Cached(fs, actvar, k, idx)} :: k < |fs| ==> Cached(fs, actvar, k, idx)
  }

  /** Blocks are entered one inside the other. */
  ghost predicate BlocksOk(f: Func) {
    && f.blocks != [] && f.blocks[0].nactvar == 0
    && forall i, j {:trigger f.blocks[i], f.blocks[j]} :: 0 <= i <= j < |f.blocks| ==>
      f.blocks[i].nactvar <= f.blocks[j].nactvar <= f.nactvar
  }

  /** A block is marked iff one of the variables it declares is in `captured`. */
  ghost predicate MarksOk(f: Func, captured: set<nat>) {
    && (forall r {:trigger r in captured} :: r in captured ==> r < f.nactvar)
    && forall b {:trigger f.blocks[b]} :: 0 <= b < |f.blocks| ==>
      (f.blocks[b].upval <==> Captures(f.blocks, captured, b))
  }

  ghost predicate Captures(blocks: seq<Block>, captured: set<nat>, b: int) {
    exists r {:trigger BlockOf(blocks, r)} :: r in captured && BlockOf(blocks, r) == b
  }

  /** `captured` has, for each open function, the registers that are upvalues of functions inside it. */
  ghost predicate Inv(fs: seq<Func>, actvar: seq<Name>, captured: seq<set<nat>>) {
    && |captured| == |fs| > 0 && Nested(fs, actvar) && Within(fs, actvar) && CacheOk(fs, actvar)
    && FuncsOk(fs, captured) && InstackOk(fs, captured) && fs[0].upvalues == [Upvaldesc(ENV, true, 0)]
  }

  ghost predicate FuncsOk(fs: seq<Func>, captured: seq<set<nat>>) {
    |captured| == |fs| && forall k {:trigger fs[k]} :: 0 <= k < |fs| ==> BlocksOk(fs[k]) && MarksOk(fs[k], captured[k])
  }

  /** The registers that descriptors name are captured. */
  ghost predicate InstackOk(fs: seq<Func>, captured: seq<set<nat>>) {
    |captured| == |fs| && forall k {:trigger fs[k]} :: 0 < k < |fs| ==> NamesIn(fs[k].upvalues, captured[k - 1])
  }

  ghost predicate NamesIn(upvalues: seq<Upvaldesc>, captured: set<nat>) {
    forall i {:trigger upvalues[i]} :: 0 <= i < |upvalues| && upvalues[i].instack ==> upvalues[i].idx in captured
  }

  datatype Found = Void | Local(reg: nat) | Upval(idx: nat) | TooMany

  ghost function Denotes(fs: seq<Func>, k: int, r: Found): Place
    requires k < |fs|
  {
    match r
    case Local(reg) => if k >= 0 then Register(k, reg) else Global
    case Upval(idx) => if k >= 0 then Follow(fs, k, idx) else Global
    case _ => Global
  }

  /** Only upvalues are added, to functions up to `k`, and blocks marked. */
  ghost predicate Grown(fs: seq<Func>, fs1: seq<Func>, k: int) {
    && |fs1| == |fs|
    && (forall j {:trigger fs1[j]} :: 0 <= j < |fs| ==> GrownOne(fs[j], fs1[j]))
    && forall j {:trigger fs1[j]} :: 0 <= j < |fs| && k < j ==> fs1[j] == fs[j]
  }

  ghost predicate GrownOne(f: Func, f1: Func) {
    && f1.firstlocal == f.firstlocal && f1.nactvar == f.nactvar && f.upvalues <= f1.upvalues
      && |f1.blocks| == |f.blocks|
    && forall b {:trigger f1.blocks[b]} :: 0 <= b < |f.blocks| ==> f1.blocks[b].nactvar == f.blocks[b].nactvar
  }

  /**
   The descriptor leads, from the last function, to what its name means there, and a register's block will close it.
   */
  ghost predicate LeadsRight(fs: seq<Func>, actvar: seq<Name>, d: Upvaldesc)
    requires fs != [] && Within(fs, actvar)
  {
    var k := |fs| - 1;
    && Resolve(fs, actvar, k, d.name) == (if d.instack then Register(k, d.idx) else Follow(fs, k, d.idx)) != Global
    && (d.instack ==> Closed(fs[k].blocks, d.idx))
  }

  ghost predicate AllLead(fs: seq<Func>, actvar: seq<Name>, upvalues: seq<Upvaldesc>)
    requires fs != [] && Within(fs, actvar)
  {
    forall i {:trigger upvalues[i]} :: 0 <= i < |upvalues| ==> LeadsRight(fs, actvar, upvalues[i])
  }

  ghost predicate Closed(blocks: seq<Block>, reg: nat) {
    BlockOf(blocks, reg) >= 0 && blocks[BlockOf(blocks, reg)].upval
  }

  /** The state after a block was left, and whether it has variables that closures may still use. */
  ghost predicate Left(fs: seq<Func>, actvar: seq<Name>, captured: seq<set<nat>>, fs1: seq<Func>, actvar1: seq<Name>,
      close: bool)
    requires fs != [] && |captured| == |fs| && BlocksOk(fs[|fs| - 1]) && Within(fs, actvar)
  {
    var k, f := |fs| - 1, fs[|fs| - 1];
    var level := f.blocks[|f.blocks| - 1].nactvar;
    && fs1 == fs[k := f.(nactvar := level, blocks := f.blocks[..|f.blocks| - 1])]
    && actvar1 == actvar[..f.firstlocal + level]
    && (close <==> exists r :: r in captured[k] && level <= r < f.nactvar)
  }

  /** Function `i` has neither a visible variable nor an upvalue of the name. */
  ghost predicate Lacks(fs: seq<Func>, actvar: seq<Name>, i: nat, n: Name)
    requires i < |fs| && Within(fs, actvar)
  {
    && LastOf(Locals(fs, actvar, i), n) < 0
    && forall x {:trigger fs[i].upvalues[x]} :: 0 <= x < |fs[i].upvalues| ==> fs[i].upvalues[x].name != n
  }

  ghost predicate Misses(fs: seq<Func>, actvar: seq<Name>, j: nat, k: int, n: Name)
    requires k < |fs| && Within(fs, actvar)
  {
    forall i: nat {:trigger Lacks(fs, actvar, i, n)} :: j <= i <= k ==> Lacks(fs, actvar, i, n)
  }

  /** The name needs a new upvalue in a function that is full: no function from that one to `k` has the name. */
  ghost predicate Overflows(fs: seq<Func>, actvar: seq<Name>, k: int, n: Name)
    requires k < |fs| && Within(fs, actvar)
  {
    exists j: nat {:trigger Misses(fs, actvar, j, k, n)} ::
      0 < j <= k && Misses(fs, actvar, j, k, n) && |fs[j].upvalues| >= MAXUPVAL && Resolve(fs, actvar, k, n) != Global
  }

  /** The name overflows or, if it is not found, the environment does. */
  ghost predicate NameOverflows(fs: seq<Func>, actvar: seq<Name>, k: int, n: Name)
    requires k < |fs| && Within(fs, actvar)
  {
    Overflows(fs, actvar, k, n) || (Resolve(fs, actvar, k, n) == Global && Overflows(fs, actvar, k, ENV))
  }

  /**
   A use from inside another function captures the variable; a use in the function that declares it (`base`) captures
   nothing.
   */
  ghost function Captured(captured: seq<set<nat>>, place: Place, k: int, base: bool): seq<set<nat>> {
    if place.Register? && place.level < |captured| && !(base && place.level == k)
    then captured[place.level := captured[place.level] + {place.reg}]
    else captured
  }

  /** What an upvalue leads to was captured when the upvalue was made. */
  lemma {:induction false} FollowCaptured(fs: seq<Func>, captured: seq<set<nat>>, k: nat, idx: nat)
    requires k < |fs| && InstackOk(fs, captured)
    ensures var p := Follow(fs, k, idx); p.Register? ==> p.level < k && p.reg in captured[p.level]
    decreases k
  {
    if idx < |fs[k].upvalues| && k > 0 && !fs[k].upvalues[idx].instack {
      FollowCaptured(fs, captured, k - 1, fs[k].upvalues[idx].idx);
    }
  }

  lemma AgainCaptured(fs: seq<Func>, captured: seq<set<nat>>, k: nat, idx: nat, base: bool)
    requires k < |fs| && InstackOk(fs, captured)
    ensures Captured(captured, Follow(fs, k, idx), k, base) == captured
  {
    FollowCaptured(fs, captured, k, idx);
    var p := Follow(fs, k, idx);
    assert p.Register? ==> captured[p.level] + {p.reg} == captured[p.level];
  }

  lemma ThisCaptured(captured: seq<set<nat>>, k: nat, reg: nat, base: bool)
    requires k < |captured|
    ensures Captured(captured, Register(k, reg), k, base) ==
      if base then captured else captured[k := captured[k] + {reg}]
  {
  }

  lemma NoneCaptured(captured: seq<set<nat>>, k: int, base: bool)
    ensures Captured(captured, Global, k, base) == captured
  {
  }

  lemma OuterCaptured(fs: seq<Func>, actvar: seq<Name>, captured: seq<set<nat>>, k: nat, n: Name, base: bool)
    requires k < |fs| && Within(fs, actvar)
    ensures var p := Resolve(fs, actvar, k - 1, n);
      Captured(captured, p, k, base) == Captured(captured, p, k - 1, false)
  {
    ResolveOutside(fs, actvar, k - 1, n);
  }

  lemma {:induction false} ResolveOutside(fs: seq<Func>, actvar: seq<Name>, k: int, n: Name)
    requires k < |fs| && Within(fs, actvar)
    ensures var p := Resolve(fs, actvar, k, n); p.Register? ==> p.level <= k
    decreases k
  {
    if k >= 0 {
      ResolveOutside(fs, actvar, k - 1, n);
    }
  }

  // ----- the parser's state -----

  class LexState {
    var funcs: seq<Func>
    var actvar: seq<Name>
    ghost var captured: seq<set<nat>>

    ghost predicate Valid()
      reads this
    {
      Inv(funcs, actvar, captured)
    }

    /** `mainfunc`: the main function has the environment as its only upvalue. */
    constructor ()
      ensures Valid() && |funcs| == 1 && actvar == []
    {
      funcs, actvar, captured := [Func(0, 0, [Block(0, false)], [Upvaldesc(ENV, true, 0)])], [], [{}];
    }

    method SearchVar(k: nat, n: Name) returns (i: int)
      requires Valid() && k < |funcs|
      ensures i == LastOf(Locals(funcs, actvar, k), n)
    {
      var f := funcs[k];
      ghost var names := Locals(funcs, actvar, k);
      i := f.nactvar - 1;
      while i >= 0
        invariant -1 <= i < f.nactvar == |names|
        invariant forall j :: i < j < |names| ==> names[j] != n
      {
        assert names[i] == actvar[f.firstlocal + i];
        if actvar[f.firstlocal + i] == n {
          break;
        }
        i := i - 1;
      }
      LastUnique(names, n, i);
    }

    method SearchUpvalue(k: nat, n: Name) returns (i: int)
      requires k < |funcs|
      ensures i >= 0 ==> i < |funcs[k].upvalues| && funcs[k].upvalues[i].name == n
      ensures i < 0 ==> forall j :: 0 <= j < |funcs[k].upvalues| ==> funcs[k].upvalues[j].name != n
    {
      var up := funcs[k].upvalues;
      i := 0;
      while i < |up|
        invariant 0 <= i <= |up| && forall j :: 0 <= j < i ==> up[j].name != n
      {
        if up[i].name == n {
          return;
        }
        i := i + 1;
      }
      i := -1;
    }

    /** `markupval`: the block that declares the variable will have to close it. */
    method MarkUpval(k: nat, level: nat)
      requires Valid() && k < |funcs| && level < funcs[k].nactvar
      modifies `funcs, `captured
      ensures Valid() && Grown(old(funcs), funcs, k) && captured == old(captured)[k := old(captured)[k] + {level}]
      ensures forall j :: 0 <= j < |funcs| ==> funcs[j].upvalues == old(funcs)[j].upvalues
    {
      var blocks := funcs[k].blocks;
      var bl := |blocks| - 1;
      while blocks[bl].nactvar > level
        invariant 0 <= bl < |blocks| && forall j :: bl < j < |blocks| ==> blocks[j].nactvar > level
        decreases bl
      {
        bl := bl - 1;
      }
      hide Inv, Grown;
      MarkKeeps(funcs, actvar, captured, k, level, bl);
      funcs := funcs[k := funcs[k].(blocks := blocks[bl := blocks[bl].(upval := true)])];
      captured := captured[k := captured[k] + {level}];
    }

    /** `newupvalue`. */
    method NewUpvalue(k: nat, d: Upvaldesc) returns (r: Found)
      requires Valid() && 0 < k < |funcs| && (d.instack ==> d.idx in captured[k - 1])
      requires (if d.instack then Register(k - 1, d.idx) else Follow(funcs, k - 1, d.idx)) == Resolve(funcs, actvar,
        k - 1, d.name) != Global
      modifies `funcs
      ensures Valid() && Grown(old(funcs), funcs, k)
      ensures if |old(funcs)[k].upvalues| >= MAXUPVAL then r == TooMany
        else r == Upval(|old(funcs)[k].upvalues|) && Follow(funcs, k, r.idx) == Resolve(funcs, actvar, k - 1, d.name)
    {
      var up := funcs[k].upvalues;
      if |up| + 1 > MAXUPVAL {
        return TooMany;
      }
      AddKeeps(funcs, actvar, captured, k, d);
      funcs := funcs[k := funcs[k].(upvalues := up + [d])];
      r := Upval(|up|);
    }

    /** `singlevaraux`: the name is looked up from function `k` outwards; upvalues are added on the way back. */
    method SingleVarAux(k: int, n: Name, base: bool) returns (r: Found)
      requires Valid() && k < |funcs| && (k < 0 ==> n != ENV)
      modifies `funcs, `captured
      ensures Valid() && Grown(old(funcs), funcs, k)
      ensures !r.TooMany? ==>
        Denotes(funcs, k, r) == Resolve(old(funcs), actvar, k, n)
        && (r.Void? <==> Resolve(old(funcs), actvar, k, n) == Global)
      ensures r.Local? && !base ==> k >= 0 && r.reg in captured[k]
      ensures r.TooMany? <==> Overflows(old(funcs), actvar, k, n)
      ensures r.Void? || (r.Local? && base) ==> funcs == old(funcs)
      ensures captured == Captured(old(captured), Resolve(old(funcs), actvar, k, n), k, base)
      decreases k
    {
      hide CacheOk, Nested, FuncsOk, InstackOk, LastOf, Overflows, Captured;
      OverflowsNext(funcs, actvar, k, n);
      if k < 0 {
        NoneCaptured(captured, k, base);
        return Void;
      }
      var v := SearchVar(k, n);
      if v >= 0 {
        ThisCaptured(captured, k, v, base);
        if !base {
          MarkUpval(k, v);
        }
        return Local(v);
      }
      var idx := SearchUpvalue(k, n);
      assert funcs[0].upvalues[0].name == ENV;
      if idx >= 0 {
        FromCache(funcs, actvar, k, idx);
        AgainCaptured(funcs, captured, k, idx, base);
        return Upval(idx);
      }
      OuterCaptured(funcs, actvar, captured, k, n, base);
      r := SingleVarAux(k - 1, n, false);
      if !r.Void? && !r.TooMany? {
        ResolveSame(old(funcs), funcs, actvar, k - 1, n);
        ghost var fs := funcs;
        r := NewUpvalue(k, Upvaldesc(n, r.Local?, if r.Local? then r.reg else r.idx));
        GrownTrans(old(funcs), fs, funcs, k);
        ResolveSame(old(funcs), funcs, actvar, k - 1, n);
      }
    }

    /** `singlevar`: a name that is not found is a field of the environment. */
    method SingleVar(n: Name) returns (r: Found, global: bool)
      requires Valid()
      modifies `funcs, `captured
      ensures Valid() && Grown(old(funcs), funcs, |funcs| - 1)
      ensures !r.TooMany? ==> Denotes(funcs, |funcs| - 1, r) != Global
      ensures !r.TooMany? ==>
        Denotes(funcs, |funcs| - 1, r) == Resolve(old(funcs), actvar, |funcs| - 1, if global then ENV else n)
      ensures !r.TooMany? ==> (global <==> Resolve(old(funcs), actvar, |funcs| - 1, n) == Global)
      ensures r.TooMany? <==> NameOverflows(old(funcs), actvar, |funcs| - 1, n)
      ensures r.Local? ==> funcs == old(funcs)
      ensures var k := |funcs| - 1;
        captured == Captured(old(captured), Resolve(old(funcs), actvar, k, if global then ENV else n), k, true)
    {
      hide Captured;
      var k := |funcs| - 1;
      r := SingleVarAux(k, n, true);
      global := r.Void?;
      if global {
        NoneCaptured(old(captured), k, true);
        ghost var fs := funcs;
        r := SingleVarAux(k, ENV, true);
        GrownTrans(old(funcs), fs, funcs, k);
        ResolveSame(old(funcs), fs, actvar, k, ENV);
        EnvironmentFound(fs, actvar, k);
      }
    }

    /** `new_localvar`: the variable is not visible yet. */
    method NewLocalVar(n: Name) returns (ok: bool)
      requires Valid()
      modifies `actvar
      ensures Valid() && ok == (|old(actvar)| + 1 - funcs[|funcs| - 1].firstlocal <= MAXVARS)
      ensures actvar == if ok then old(actvar) + [n] else old(actvar)
      ensures forall k, x :: k < |funcs| ==> Resolve(funcs, actvar, k, x) == Resolve(funcs, old(actvar), k, x)
    {
      ok := |actvar| + 1 - funcs[|funcs| - 1].firstlocal <= MAXVARS;
      if ok {
        DeclareKeeps(funcs, actvar, captured, n);
        actvar := actvar + [n];
      }
    }

    /** `adjustlocalvars`: the next `n` declared variables of the current function become visible. */
    method AdjustLocalVars(n: nat)
      requires Valid() && funcs[|funcs| - 1].firstlocal + funcs[|funcs| - 1].nactvar + n <= |actvar|
      modifies `funcs
      ensures Valid() && var k := |funcs| - 1;
        funcs == old(funcs)[k := old(funcs)[k].(nactvar := old(funcs)[k].nactvar + n)]
    {
      var k := |funcs| - 1;
      hide BlocksOk, MarksOk, CacheOk, Nested, Fits, NamesIn;
      AdjustMarks(funcs, actvar, captured, n);
      TopKeeps(funcs, actvar, actvar, captured, funcs[k].(nactvar := funcs[k].nactvar + n), captured[k]);
      funcs := funcs[k := funcs[k].(nactvar := funcs[k].nactvar + n)];
    }

    /** `enterblock`. */
    method EnterBlock()
      requires Valid()
      modifies `funcs
      ensures Valid() && var k, f := |funcs| - 1, old(funcs)[|funcs| - 1];
        funcs == old(funcs)[k := f.(blocks := f.blocks + [Block(f.nactvar, false)])]
    {
      var k, f := |funcs| - 1, funcs[|funcs| - 1];
      EnterMarks(f, captured[k]);
      TopKeeps(funcs, actvar, actvar, captured, f.(blocks := f.blocks + [Block(f.nactvar, false)]), captured[k]);
      funcs := funcs[k := f.(blocks := f.blocks + [Block(f.nactvar, false)])];
    }

    /** `leaveblock`, of a block inside a function; `close` says whether code is emitted that closes upvalues. */
    method LeaveBlock() returns (close: bool)
      requires Valid() && |funcs[|funcs| - 1].blocks| > 1
      requires funcs[|funcs| - 1].firstlocal + funcs[|funcs| - 1].nactvar == |actvar|
      modifies `funcs, `actvar, `captured
      ensures Valid() && Left(old(funcs), old(actvar), old(captured), funcs, actvar, close)
    {
      var k, f := |funcs| - 1, funcs[|funcs| - 1];
      var bl := f.blocks[|f.blocks| - 1];
      close := bl.upval;
      LeaveMarks(f, captured[k]);
      var n := |actvar| - (f.nactvar - bl.nactvar);
      ghost var left := set r | r in captured[k] && r < bl.nactvar;
      hide Inv;
      TopKeeps(funcs, actvar, actvar[..n], captured, f.(nactvar := bl.nactvar, blocks := f.blocks[..|f.blocks| - 1]),
        left);
      funcs := funcs[k := f.(nactvar := bl.nactvar, blocks := f.blocks[..|f.blocks| - 1])];
      actvar, captured := actvar[..n], captured[k := left];
    }

    /** `open_func`. */
    method OpenFunc()
      requires Valid()
      modifies `funcs, `captured
      ensures Valid() && funcs == old(funcs) + [Func(|actvar|, 0, [Block(0, false)], [])]
    {
      OpenKeeps(funcs, actvar, captured);
      funcs, captured := funcs + [Func(|actvar|, 0, [Block(0, false)], [])], captured + [{}];
    }

    /**
     `close_func`, of a function inside another one. Its descriptors lead, from the function that makes the closure,
     to what their names mean there.
     */
    method CloseFunc() returns (upvalues: seq<Upvaldesc>)
      requires Valid() && |funcs| > 1 && |funcs[|funcs| - 1].blocks| == 1
      requires funcs[|funcs| - 1].firstlocal + funcs[|funcs| - 1].nactvar == |actvar|
      modifies `funcs, `actvar, `captured
      ensures Valid() && funcs == old(funcs)[..|old(funcs)| - 1]
      ensures actvar == old(actvar)[..old(funcs)[|old(funcs)| - 1].firstlocal]
      ensures upvalues == old(funcs)[|old(funcs)| - 1].upvalues
      ensures AllLead(funcs, actvar, upvalues)
    {
      var k := |funcs| - 1;
      var f := funcs[k];
      upvalues := f.upvalues;
      var n := |actvar| - f.nactvar;
      CloseKeeps(funcs, actvar, captured, n);
      funcs, actvar, captured := funcs[..k], actvar[..n], captured[..k];
    }
  }

  // ----- runs -----

  datatype Op = Declare(name: Name) | Adjust(n: nat) | Enter | Leave | Open | Close | Use(name: Name)

  /**
   The parser follows the grammar: what is declared becomes visible before a block ends, and blocks end inside out.
   */
  predicate Allowed(fs: seq<Func>, actvar: seq<Name>, op: Op)
    requires fs != []
  {
    var f := fs[|fs| - 1];
    match op
    case Adjust(n) => f.firstlocal + f.nactvar + n <= |actvar|
    case Leave => |f.blocks| > 1 && f.firstlocal + f.nactvar == |actvar|
    case Close => |fs| > 1 && |f.blocks| == 1 && f.firstlocal + f.nactvar == |actvar|
    case _ => true
  }

  /** After any run of the parser, by name or afresh, every upvalue leads to the innermost visible declaration. */
  method Parse(ops: seq<Op>) returns (ls: LexState)
    ensures fresh(ls) && ls.Valid()
  {
    hide Inv;
    ls := new LexState();
    for i := 0 to |ops|
      invariant fresh(ls) && ls.Valid()
    {
      NeverEmpty(ls.funcs, ls.actvar, ls.captured);
      if Allowed(ls.funcs, ls.actvar, ops[i]) {
        match ops[i]
        case Declare(n) => var _ := ls.NewLocalVar(n);
        case Adjust(n) => ls.AdjustLocalVars(n);
        case Enter => ls.EnterBlock();
        case Leave => var _ := ls.LeaveBlock();
        case Open => ls.OpenFunc();
        case Close => var _ := ls.CloseFunc();
        case Use(n) => var _, _ := ls.SingleVar(n);
      }
    }
  }

  lemma NeverEmpty(fs: seq<Func>, actvar: seq<Name>, captured: seq<set<nat>>)
    requires Inv(fs, actvar, captured)
    ensures fs != []
  {
  }

  // ----- proofs -----

  lemma LastUnique(names: seq<Name>, n: Name, i: int)
    requires -1 <= i < |names| && (i >= 0 ==> names[i] == n) && forall j :: i < j < |names| ==> names[j] != n
    ensures i == LastOf(names, n)
  {
  }

  ghost predicate SameScopes(fs: seq<Func>, fs1: seq<Func>, k: int) {
    forall j {:trigger fs1[j]} :: 0 <= j <= k && j < |fs| && j < |fs1| ==>
      fs1[j].firstlocal == fs[j].firstlocal && fs1[j].nactvar == fs[j].nactvar
  }

  /** What a name means depends on the visible variables only. */
  lemma {:induction false} ResolveAs(fs: seq<Func>, actvar: seq<Name>, fs1: seq<Func>, actvar1: seq<Name>, k: int,
      n: Name)
    requires k < |fs| && k < |fs1| && Within(fs, actvar) && Within(fs1, actvar1) && SameScopes(fs, fs1, k)
    requires forall j, i {:trigger Locals(fs, actvar, j)[i]} :: 0 <= j <= k && 0 <= i < fs[j].nactvar ==>
      Locals(fs1, actvar1, j)[i] == Locals(fs, actvar, j)[i]
    ensures Resolve(fs1, actvar1, k, n) == Resolve(fs, actvar, k, n)
    decreases k
  {
    if k >= 0 {
      assert fs1[k].nactvar == fs[k].nactvar;
      assert Locals(fs1, actvar1, k) == Locals(fs, actvar, k);
      ResolveAs(fs, actvar, fs1, actvar1, k - 1, n);
    }
  }

  lemma ResolveSame(fs: seq<Func>, fs1: seq<Func>, actvar: seq<Name>, k: int, n: Name)
    requires k < |fs| == |fs1| && Within(fs, actvar)
    requires forall j {:trigger fs1[j]} :: 0 <= j < |fs| ==> GrownOne(fs[j], fs1[j])
    ensures Within(fs1, actvar) && Resolve(fs1, actvar, k, n) == Resolve(fs, actvar, k, n)
  {
    assert Within(fs1, actvar) by {
      forall j | 0 <= j < |fs1| ensures fs1[j].firstlocal + fs1[j].nactvar <= |actvar| {
        assert GrownOne(fs[j], fs1[j]);
      }
    }
    forall j, i | 0 <= j <= k && 0 <= i < fs[j].nactvar ensures Locals(fs1, actvar, j)[i] == Locals(fs, actvar, j)[i] {
      assert GrownOne(fs[j], fs1[j]);
    }
    assert SameScopes(fs, fs1, k) by {
      forall j | 0 <= j <= k ensures fs1[j].firstlocal == fs[j].firstlocal && fs1[j].nactvar == fs[j].nactvar {
        assert GrownOne(fs[j], fs1[j]);
      }
    }
    ResolveAs(fs, actvar, fs1, actvar, k, n);
  }

  /** Descriptors that lead somewhere still lead there when there are more of them. */
  lemma {:induction false} FollowSame(fs: seq<Func>, fs1: seq<Func>, k: nat, idx: nat)
    requires k < |fs| && k < |fs1|
    requires (forall j {:trigger fs1[j]} :: 0 <= j <= k ==> fs[j].upvalues <= fs1[j].upvalues)
    requires Follow(fs, k, idx) != Global
    ensures Follow(fs1, k, idx) == Follow(fs, k, idx)
    decreases k
  {
    assert fs[k].upvalues <= fs1[k].upvalues;
    if k > 0 && !fs[k].upvalues[idx].instack {
      FollowSame(fs, fs1, k - 1, fs[k].upvalues[idx].idx);
    }
  }

  lemma GrownTrans(fs: seq<Func>, fs1: seq<Func>, fs2: seq<Func>, k: int)
    requires Grown(fs, fs1, k) && Grown(fs1, fs2, k)
    ensures Grown(fs, fs2, k)
  {
    forall j | 0 <= j < |fs| ensures GrownOne(fs[j], fs2[j]) && (k < j ==> fs2[j] == fs[j]) {
      assert GrownOne(fs[j], fs1[j]) && GrownOne(fs1[j], fs2[j]);
    }
  }

  lemma {:induction false} EnvironmentFound(fs: seq<Func>, actvar: seq<Name>, k: int)
    requires k < |fs| && Within(fs, actvar)
    ensures Resolve(fs, actvar, k, ENV) != Global
    decreases k
  {
    if k >= 0 {
      EnvironmentFound(fs, actvar, k - 1);
    }
  }

  lemma {:induction false} BlockOfSame(blocks: seq<Block>, blocks1: seq<Block>, r: nat)
    requires |blocks1| == |blocks|
    requires forall b {:trigger blocks1[b]} :: 0 <= b < |blocks| ==> blocks1[b].nactvar == blocks[b].nactvar
    ensures BlockOf(blocks1, r) == BlockOf(blocks, r)
  {
    if blocks != [] {
      BlockOfSame(blocks[..|blocks| - 1], blocks1[..|blocks| - 1], r);
    }
  }

  /** The meaning of upvalues, when nothing changes that the functions around them can see. */
  lemma CacheAs(fs: seq<Func>, actvar: seq<Name>, fs1: seq<Func>, actvar1: seq<Name>)
    requires Within(fs, actvar) && Within(fs1, actvar1) && CacheOk(fs, actvar)
    requires |fs1| - 1 <= |fs|
    requires forall k {:trigger fs1[k]} :: 0 <= k < |fs1| ==>
      if k < |fs| then fs1[k].upvalues == fs[k].upvalues else fs1[k].upvalues == []
    requires SameScopes(fs, fs1, |fs1| - 2)
    requires forall j, i {:trigger Locals(fs, actvar, j)[i]} :: 0 <= j < |fs1| - 1 && 0 <= i < fs[j].nactvar ==>
      Locals(fs1, actvar1, j)[i] == Locals(fs, actvar, j)[i]
    ensures CacheOk(fs1, actvar1)
  {
    forall k: nat, idx: nat | k < |fs1| ensures Cached(fs1, actvar1, k, idx) {
      if idx < |fs1[k].upvalues| {
        assert Cached(fs, actvar, k, idx);
        assert SameScopes(fs, fs1, k - 1) by {
          forall j | 0 <= j <= k - 1 ensures fs1[j].firstlocal == fs[j].firstlocal && fs1[j].nactvar == fs[j].nactvar {
          }
        }
        ResolveAs(fs, actvar, fs1, actvar1, k - 1, fs1[k].upvalues[idx].name);
        FollowAs(fs, fs1, k, idx);
      }
    }
  }

  lemma {:induction false} FollowAs(fs: seq<Func>, fs1: seq<Func>, k: nat, idx: nat)
    requires k < |fs| && k < |fs1| && Follow(fs, k, idx) != Global && fs1[k].upvalues == fs[k].upvalues
    requires forall j {:trigger fs1[j]} :: 0 <= j < k ==> fs1[j].upvalues == fs[j].upvalues
    ensures Follow(fs1, k, idx) == Follow(fs, k, idx)
    decreases k
  {
    if k > 0 && !fs[k].upvalues[idx].instack {
      assert fs1[k - 1].upvalues == fs[k - 1].upvalues;
      FollowAs(fs, fs1, k - 1, fs[k].upvalues[idx].idx);
    }
  }

  lemma MarkKeeps(fs: seq<Func>, actvar: seq<Name>, captured: seq<set<nat>>, k: nat, level: nat, bl: nat)
    requires Inv(fs, actvar, captured) && k < |fs| && level < fs[k].nactvar && bl < |fs[k].blocks|
    requires fs[k].blocks[bl].nactvar <= level
    requires forall j :: bl < j < |fs[k].blocks| ==> fs[k].blocks[j].nactvar > level
    ensures var fs1 := fs[k := fs[k].(blocks := fs[k].blocks[bl := fs[k].blocks[bl].(upval := true)])];
      Inv(fs1, actvar, captured[k := captured[k] + {level}]) && Grown(fs, fs1, k)
  {
    var f := fs[k];
    var f1 := f.(blocks := f.blocks[bl := f.blocks[bl].(upval := true)]);
    var fs1 := fs[k := f1];
    hide Follow, Resolve, Cached, BlocksOk, MarksOk, NamesIn;
    Marked(f, f1, captured[k], level, bl);
    forall j | 0 <= j < |fs| ensures GrownOne(fs[j], fs1[j]) {
    }
    ShapeKept(fs, fs1, actvar);
    CacheAs(fs, actvar, fs1, actvar);
  }

  lemma ShapeKept(fs: seq<Func>, fs1: seq<Func>, actvar: seq<Name>)
    requires Nested(fs, actvar) && Within(fs, actvar) && |fs1| == |fs|
    requires forall j {:trigger fs1[j]} :: 0 <= j < |fs| ==> GrownOne(fs[j], fs1[j])
    ensures Nested(fs1, actvar) && Within(fs1, actvar)
  {
    forall j | 0 <= j < |fs1| ensures Fits(fs1, actvar, j) {
      assert Fits(fs, actvar, j) && GrownOne(fs[j], fs1[j]) && (j + 1 < |fs| ==> GrownOne(fs[j + 1], fs1[j + 1]));
    }
    forall j | 0 <= j < |fs1| ensures fs1[j].firstlocal + fs1[j].nactvar <= |actvar| {
      assert GrownOne(fs[j], fs1[j]);
    }
  }

  /** A name overflows in the function itself or in one around it. */
  lemma OverflowsNext(fs: seq<Func>, actvar: seq<Name>, k: int, n: Name)
    requires k < |fs| && Within(fs, actvar)
    ensures Overflows(fs, actvar, k, n) <==>
      && k > 0 && Lacks(fs, actvar, k, n)
      && (Overflows(fs, actvar, k - 1, n)
        || (Resolve(fs, actvar, k - 1, n) != Global && |fs[k].upvalues| >= MAXUPVAL))
    ensures k == 0 ==> !Overflows(fs, actvar, -1, n)
  {
    if k > 0 {
      ResolveOut(fs, actvar, k, n);
    }
    hide Lacks, Resolve;
    if Overflows(fs, actvar, k, n) {
      var j: nat :| 0 < j <= k && Misses(fs, actvar, j, k, n) && |fs[j].upvalues| >= MAXUPVAL;
      assert Lacks(fs, actvar, k, n);
      if j < k {
        assert Misses(fs, actvar, j, k - 1, n);
      }
    }
    if k > 0 && Lacks(fs, actvar, k, n) {
      if Overflows(fs, actvar, k - 1, n) {
        var j: nat :| 0 < j <= k - 1 && Misses(fs, actvar, j, k - 1, n) && |fs[j].upvalues| >= MAXUPVAL;
        assert Misses(fs, actvar, j, k, n);
      } else if Resolve(fs, actvar, k - 1, n) != Global && |fs[k].upvalues| >= MAXUPVAL {
        assert Misses(fs, actvar, k, k, n);
      }
    }
  }

  lemma ResolveOut(fs: seq<Func>, actvar: seq<Name>, k: nat, n: Name)
    requires k < |fs| && Within(fs, actvar)
    ensures Lacks(fs, actvar, k, n) ==> Resolve(fs, actvar, k, n) == Resolve(fs, actvar, k - 1, n)
  {
  }

  lemma FromCache(fs: seq<Func>, actvar: seq<Name>, k: nat, idx: nat)
    requires k < |fs| && Within(fs, actvar) && CacheOk(fs, actvar) && idx < |fs[k].upvalues|
    ensures Follow(fs, k, idx) != Global && Follow(fs, k, idx) == Resolve(fs, actvar, k - 1, fs[k].upvalues[idx].name)
  {
    assert Cached(fs, actvar, k, idx);
  }

  lemma Marked(f: Func, f1: Func, captured: set<nat>, level: nat, bl: nat)
    requires BlocksOk(f) && MarksOk(f, captured) && level < f.nactvar && bl < |f.blocks|
    requires f.blocks[bl].nactvar <= level
    requires forall j :: bl < j < |f.blocks| ==> f.blocks[j].nactvar > level
    requires f1 == f.(blocks := f.blocks[bl := f.blocks[bl].(upval := true)])
    ensures BlocksOk(f1) && MarksOk(f1, captured + {level})
  {
    hide BlockOf;
    forall r: nat ensures BlockOf(f1.blocks, r) == BlockOf(f.blocks, r) {
      BlockOfSame(f.blocks, f1.blocks, r);
    }
    var c1 := captured + {level};
    forall b | 0 <= b < |f1.blocks| ensures f1.blocks[b].upval <==> Captures(f1.blocks, c1, b) {
      if b == bl {
        assert level in c1 && BlockOf(f1.blocks, level) == b;
      } else {
        SameCaptures(f.blocks, captured, f1.blocks, c1, b);
      }
    }
  }

  lemma AddKeeps(fs: seq<Func>, actvar: seq<Name>, captured: seq<set<nat>>, k: nat, d: Upvaldesc)
    requires Inv(fs, actvar, captured) && 0 < k < |fs| && (d.instack ==> d.idx in captured[k - 1])
    requires (if d.instack then Register(k - 1, d.idx) else Follow(fs, k - 1, d.idx)) == Resolve(fs, actvar, k - 1,
      d.name) != Global
    ensures var fs1 := fs[k := fs[k].(upvalues := fs[k].upvalues + [d])];
      Inv(fs1, actvar, captured) && Grown(fs, fs1, k) && Follow(fs1, k, |fs[k].upvalues|) == Resolve(fs1, actvar,
        k - 1, d.name)
      && Resolve(fs1, actvar, k - 1, d.name) == Resolve(fs, actvar, k - 1, d.name)
  {
    hide Follow, Resolve, MarksOk, BlocksOk, CacheOk;
    var fs1 := fs[k := fs[k].(upvalues := fs[k].upvalues + [d])];
    forall j | 0 <= j < |fs| ensures GrownOne(fs[j], fs1[j]) {
    }
    ShapeKept(fs, fs1, actvar);
    AddCached(fs, fs1, actvar, k, d);
    assert FuncsOk(fs1, captured) by {
      SameMarks(fs[k], fs1[k], captured[k]);
    }
    ResolveSame(fs, fs1, actvar, k - 1, d.name);
    FromCache(fs1, actvar, k, |fs[k].upvalues|);
  }

  lemma SameMarks(f: Func, f1: Func, captured: set<nat>)
    requires BlocksOk(f) && MarksOk(f, captured) && f1.blocks == f.blocks && f1.nactvar == f.nactvar
    ensures BlocksOk(f1) && MarksOk(f1, captured)
  {
    hide BlockOf, Captures;
  }

  lemma AddCached(fs: seq<Func>, fs1: seq<Func>, actvar: seq<Name>, k: nat, d: Upvaldesc)
    requires 0 < k < |fs| && fs1 == fs[k := fs[k].(upvalues := fs[k].upvalues + [d])]
    requires Within(fs, actvar) && Within(fs1, actvar) && CacheOk(fs, actvar)
    requires forall x {:trigger fs1[x]} :: 0 <= x < |fs| ==> GrownOne(fs[x], fs1[x])
    requires (if d.instack then Register(k - 1, d.idx) else Follow(fs, k - 1, d.idx)) == Resolve(fs, actvar, k - 1,
      d.name) != Global
    ensures CacheOk(fs1, actvar)
  {
    hide Follow, Resolve, Cached, GrownOne, Within;
    forall j: nat, idx: nat | j < |fs1| ensures Cached(fs1, actvar, j, idx) {
      if idx < |fs[j].upvalues| {
        OldCached(fs, fs1, actvar, j, idx);
      } else {
        NewCached(fs, fs1, actvar, k, d, j, idx);
      }
    }
  }

  lemma OldCached(fs: seq<Func>, fs1: seq<Func>, actvar: seq<Name>, j: nat, idx: nat)
    requires j < |fs| == |fs1| && idx < |fs[j].upvalues| && Within(fs, actvar) && Within(fs1, actvar)
    requires CacheOk(fs, actvar)
    requires forall x {:trigger fs1[x]} :: 0 <= x < |fs| ==> GrownOne(fs[x], fs1[x])
    ensures Cached(fs1, actvar, j, idx)
  {
    assert Cached(fs, actvar, j, idx);
    forall x | 0 <= x < |fs| ensures fs[x].upvalues <= fs1[x].upvalues {
      assert GrownOne(fs[x], fs1[x]);
    }
    FollowSame(fs, fs1, j, idx);
    ResolveSame(fs, fs1, actvar, j - 1, fs[j].upvalues[idx].name);
  }

  lemma NewCached(fs: seq<Func>, fs1: seq<Func>, actvar: seq<Name>, k: nat, d: Upvaldesc, j: nat, idx: nat)
    requires 0 < k < |fs| && fs1 == fs[k := fs[k].(upvalues := fs[k].upvalues + [d])] && Within(fs, actvar)
    requires Within(fs1, actvar)
    requires (if d.instack then Register(k - 1, d.idx) else Follow(fs, k - 1, d.idx)) == Resolve(fs, actvar, k - 1,
      d.name) != Global
    requires j < |fs| && idx >= |fs[j].upvalues|
    ensures Cached(fs1, actvar, j, idx)
  {
    if idx < |fs1[j].upvalues| {
      forall x | 0 <= x < |fs| ensures GrownOne(fs[x], fs1[x]) && fs[x].upvalues <= fs1[x].upvalues {
      }
      ResolveSame(fs, fs1, actvar, k - 1, d.name);
      if !d.instack {
        FollowSame(fs, fs1, k - 1, d.idx);
      }
    }
  }

  lemma DeclareKeeps(fs: seq<Func>, actvar: seq<Name>, captured: seq<set<nat>>, n: Name)
    requires Inv(fs, actvar, captured)
    ensures Inv(fs, actvar + [n], captured)
    ensures forall k, x {:trigger Resolve(fs, actvar + [n], k, x)} :: k < |fs| ==>
      Resolve(fs, actvar + [n], k, x) == Resolve(fs, actvar, k, x)
  {
    var actvar1 := actvar + [n];
    forall k | 0 <= k < |fs| ensures Fits(fs, actvar1, k) {
      assert Fits(fs, actvar, k);
    }
    forall j, i | 0 <= j < |fs| && 0 <= i < fs[j].nactvar
      ensures Locals(fs, actvar1, j)[i] == Locals(fs, actvar, j)[i] {
    }
    CacheAs(fs, actvar, fs, actvar1);
    forall k, x | k < |fs| ensures Resolve(fs, actvar1, k, x) == Resolve(fs, actvar, k, x) {
      ResolveAs(fs, actvar, fs, actvar1, k, x);
    }
  }

  /** Only the current function changes. */
  lemma TopKeeps(fs: seq<Func>, actvar: seq<Name>, actvar1: seq<Name>, captured: seq<set<nat>>, f1: Func, c1: set<nat>)
    requires Inv(fs, actvar, captured) && BlocksOk(f1) && MarksOk(f1, c1)
    requires var f := fs[|fs| - 1];
      f1.firstlocal == f.firstlocal && f1.upvalues == f.upvalues && f1.firstlocal + f1.nactvar <= |actvar1|
        && actvar[..f.firstlocal] <= actvar1
    ensures Inv(fs[|fs| - 1 := f1], actvar1, captured[|fs| - 1 := c1])
  {
    var t := |fs| - 1;
    var fs1 := fs[t := f1];
    Below(fs, actvar, t);
    forall j, i | 0 <= j < t && 0 <= i < fs[j].nactvar ensures Locals(fs1, actvar1, j)[i] == Locals(fs, actvar, j)[i] {
      assert actvar[..fs[t].firstlocal][fs[j].firstlocal + i] == actvar1[fs[j].firstlocal + i];
    }
    forall k | 0 <= k < |fs1| ensures Fits(fs1, actvar1, k) {
      assert Fits(fs, actvar, k) && (k + 1 < |fs| ==> Start(fs1, k + 1) == Start(fs, k + 1));
    }
    assert Within(fs1, actvar1) by {
      forall k | 0 <= k < |fs1| ensures fs1[k].firstlocal + fs1[k].nactvar <= |actvar1| {
      }
    }
    CacheAs(fs, actvar, fs1, actvar1);
  }

  /** The functions around one have their variables before its own. */
  lemma {:induction false} Below(fs: seq<Func>, actvar: seq<Name>, t: nat)
    requires Nested(fs, actvar) && t < |fs|
    ensures forall j {:trigger fs[j]} :: 0 <= j < t ==> fs[j].firstlocal + fs[j].nactvar <= fs[t].firstlocal
  {
    if t > 0 {
      Below(fs, actvar, t - 1);
      assert Fits(fs, actvar, t - 1);
    }
  }

  lemma AdjustMarks(fs: seq<Func>, actvar: seq<Name>, captured: seq<set<nat>>, n: nat)
    requires Inv(fs, actvar, captured)
    ensures var f := fs[|fs| - 1];
      BlocksOk(f.(nactvar := f.nactvar + n)) && MarksOk(f.(nactvar := f.nactvar + n), captured[|fs| - 1])
  {
  }

  lemma EnterMarks(f: Func, captured: set<nat>)
    requires BlocksOk(f) && MarksOk(f, captured)
    ensures var f1 := f.(blocks := f.blocks + [Block(f.nactvar, false)]);
      BlocksOk(f1) && MarksOk(f1, captured)
  {
    var blocks1 := f.blocks + [Block(f.nactvar, false)];
    assert blocks1[..|blocks1| - 1] == f.blocks;
    forall b | 0 <= b < |blocks1| ensures blocks1[b].upval <==> Captures(blocks1, captured, b) {
      SameCaptures(f.blocks, captured, blocks1, captured, b);
    }
  }

  lemma SameCaptures(blocks: seq<Block>, captured: set<nat>, blocks1: seq<Block>, captured1: set<nat>, b: int)
    requires forall r {:trigger r in captured} {:trigger r in captured1} ::
      (r in captured && BlockOf(blocks, r) == b) <==> (r in captured1 && BlockOf(blocks1, r) == b)
    ensures Captures(blocks, captured, b) <==> Captures(blocks1, captured1, b)
  {
    if r :| r in captured && BlockOf(blocks, r) == b {
      assert r in captured1 && BlockOf(blocks1, r) == b;
    }
    if r :| r in captured1 && BlockOf(blocks1, r) == b {
      assert r in captured && BlockOf(blocks, r) == b;
    }
  }

  lemma LeaveMarks(f: Func, captured: set<nat>)
    requires BlocksOk(f) && MarksOk(f, captured) && |f.blocks| > 1
    ensures var b := |f.blocks| - 1;
      var level := f.blocks[b].nactvar;
      var f1 := f.(nactvar := level, blocks := f.blocks[..b]);
      && BlocksOk(f1) && MarksOk(f1, set r | r in captured && r < level)
      && (f.blocks[b].upval <==> exists r :: r in captured && level <= r < f.nactvar)
  {
    var b := |f.blocks| - 1;
    var level := f.blocks[b].nactvar;
    var left := set r | r in captured && r < level;
    forall c | 0 <= c < b ensures f.blocks[c].upval <==> Captures(f.blocks[..b], left, c) {
      SameCaptures(f.blocks, captured, f.blocks[..b], left, c);
    }
    if f.blocks[b].upval {
      var r :| r in captured && BlockOf(f.blocks, r) == b;
      assert level <= r < f.nactvar;
    }
    if r :| r in captured && level <= r < f.nactvar {
      assert BlockOf(f.blocks, r) == b;
    }
  }

  lemma OpenKeeps(fs: seq<Func>, actvar: seq<Name>, captured: seq<set<nat>>)
    requires Inv(fs, actvar, captured)
    ensures Inv(fs + [Func(|actvar|, 0, [Block(0, false)], [])], actvar, captured + [{}])
  {
    var fs1 := fs + [Func(|actvar|, 0, [Block(0, false)], [])];
    forall k | 0 <= k < |fs1| ensures Fits(fs1, actvar, k) {
      if k < |fs| {
        assert Fits(fs, actvar, k);
      }
    }
    CacheAs(fs, actvar, fs1, actvar);
  }

  lemma CloseKeeps(fs: seq<Func>, actvar: seq<Name>, captured: seq<set<nat>>, n: nat)
    requires Inv(fs, actvar, captured) && |fs| > 1 && n == fs[|fs| - 1].firstlocal <= |actvar|
    ensures Inv(fs[..|fs| - 1], actvar[..n], captured[..|fs| - 1])
    ensures AllLead(fs[..|fs| - 1], actvar[..n], fs[|fs| - 1].upvalues)
  {
    var t := |fs| - 1;
    var fs1, actvar1 := fs[..t], actvar[..n];
    hide Follow, Resolve, Cached, BlocksOk, MarksOk, NamesIn, LeadsRight;
    Below(fs, actvar, t);
    WithoutTop(fs, actvar, n);
    forall k | 0 <= k < |fs1| ensures Fits(fs1, actvar1, k) {
      assert Fits(fs, actvar, k) && Start(fs, k + 1) == fs[k + 1].firstlocal && (k + 1 < t ==> fs1[k + 1] == fs[k + 1]);
    }
    CacheAs(fs, actvar, fs1, actvar1);
    forall i | 0 <= i < |fs[t].upvalues| ensures LeadsRight(fs1, actvar1, fs[t].upvalues[i]) {
      OneLeads(fs, actvar, captured, n, i);
    }
  }

  lemma WithoutTop(fs: seq<Func>, actvar: seq<Name>, n: nat)
    requires Within(fs, actvar) && Nested(fs, actvar) && |fs| > 1 && n == fs[|fs| - 1].firstlocal <= |actvar|
    ensures Within(fs[..|fs| - 1], actvar[..n])
    ensures forall j, i {:trigger Locals(fs, actvar, j)[i]} :: 0 <= j < |fs| - 1 && 0 <= i < fs[j].nactvar ==>
      Locals(fs[..|fs| - 1], actvar[..n], j)[i] == Locals(fs, actvar, j)[i]
  {
    var t := |fs| - 1;
    Below(fs, actvar, t);
    forall j | 0 <= j < t ensures Locals(fs[..t], actvar[..n], j) == Locals(fs, actvar, j) {
      var a, b := fs[j].firstlocal, fs[j].firstlocal + fs[j].nactvar;
      assert fs[..t][j] == fs[j] && b <= n;
      assert actvar[..n][a..b] == actvar[a..b];
    }
  }

  lemma OneLeads(fs: seq<Func>, actvar: seq<Name>, captured: seq<set<nat>>, n: nat, i: nat)
    requires Inv(fs, actvar, captured) && |fs| > 1 && n == fs[|fs| - 1].firstlocal <= |actvar|
    requires i < |fs[|fs| - 1].upvalues|
    requires Within(fs[..|fs| - 1], actvar[..n])
    ensures LeadsRight(fs[..|fs| - 1], actvar[..n], fs[|fs| - 1].upvalues[i])
  {
    hide CacheOk;
    var t := |fs| - 1;
    var fs1, d := fs[..t], fs[t].upvalues[i];
    FromCache(fs, actvar, t, i);
    WithoutTop(fs, actvar, n);
    ResolveAs(fs, actvar, fs1, actvar[..n], t - 1, d.name);
    if d.instack {
      CapturedClosed(fs[t - 1], captured[t - 1], d.idx);
    } else {
      FollowAs(fs, fs1, t - 1, d.idx);
    }
  }

  lemma CapturedClosed(f: Func, captured: set<nat>, r: nat)
    requires BlocksOk(f) && MarksOk(f, captured) && r in captured
    ensures Closed(f.blocks, r)
  {
    var b := BlockOf(f.blocks, r);
    assert b >= 0 by {
      assert f.blocks[0].nactvar <= r;
    }
    assert Captures(f.blocks, captured, b);
  }
}
