/**
 Variables that closures share with the function they are declared in (lfunc.c), on a stack that can
 move (ldo.c). An upvalue points into the stack while its variable lives there, and to a value of its
 own after the variable has gone out of scope.
 */
module Upvalues {
  datatype Value = Nil | Data(n: int)

  /** `TValue *`: the address of a stack slot, or the upvalue's own field. */
  datatype Pointer = Slot(addr: int) | Own

  type Ref = nat

  datatype Link = Null | To(ref: Ref)

  datatype UpVal = UpVal(v: Pointer, refcount: nat, next: Link, value: Value)

  datatype CallInfo = CallInfo(func: int, top: int, frame: int, isLua: bool)

  const LUAI_MAXSTACK: nat := 1000000
  const ERRORSTACKSIZE: nat := LUAI_MAXSTACK + 200
  const EXTRA_STACK: nat := 5

  // ----- what a program sees -----

  /** A variable of the program; two closures share it, or do not. */
  type Var = nat

  /**
   The variable in each stack slot, the values of all variables, the variables that closures hold, and
   a bound of the slots whose variables may be held.
   */
  datatype View = View(slots: seq<Var>, store: map<Var, Value>, held: seq<Var>, reach: nat, unused: Var) {
    /** Different slots are different variables, and all have values. */
    ghost predicate Ok() {
      && (forall i, j :: 0 <= i < j < |slots| ==> slots[i] != slots[j])
      && (forall i :: 0 <= i < |slots| ==> slots[i] in store)
      && (forall h :: 0 <= h < |held| ==> held[h] in store)
      && (forall x :: x in store ==> x < unused)
      && reach <= |slots| && (forall i :: reach <= i < |slots| ==> slots[i] !in held)
    }

    ghost function Get(x: Var): Value {
      if x in store then store[x] else Nil
    }
  }

  datatype Op =
    | SetSlot(i: nat, v: Value)
    | Capture(i: nat)
    | SetUpval(h: nat, v: Value)
    | Release(h: nat)
    | Close(level: nat)
    | Resize(size: nat, at: int)

  ghost predicate CanDo(s: View, op: Op) {
    match op
    case SetSlot(i, _) => i < |s.slots|
    case Capture(i) => i < |s.slots|
    case SetUpval(h, _) => h < |s.held|
    case Release(h) => h < |s.held|
    case Close(level) => level <= |s.slots|
    case Resize(size, _) => s.reach <= size
  }

  /** What the operations mean to the program: the stack does not move, and closing gives the slots to new variables. */
  ghost function Do(s: View, op: Op): View
    requires CanDo(s, op)
  {
    match op
    case SetSlot(i, v) => Written(s, s.slots[i], v)
    case Capture(i) => Captured(s, i)
    case SetUpval(h, v) => Written(s, s.held[h], v)
    case Release(h) => Released(s, h)
    case Close(level) => Renamed(s, level)
    case Resize(size, _) => Resized(s, size)
  }

  ghost function Written(s: View, x: Var, v: Value): View {
    s.(store := s.store[x := v])
  }

  ghost function Captured(s: View, i: nat): View
    requires i < |s.slots|
  {
    s.(held := s.held + [s.slots[i]], reach := Above(s.reach, i))
  }

  ghost function Released(s: View, h: nat): View
    requires h < |s.held|
  {
    s.(held := s.held[..h] + s.held[h + 1..])
  }

  ghost function Fresh(x: Var, n: nat): (r: seq<Var>)
    ensures |r| == n && forall i :: 0 <= i < n ==> r[i] == x + i
  {
    seq(n, i => x + i)
  }

  ghost function Range(a: nat, n: nat): (r: set<Var>)
    ensures forall x :: x in r <==> a <= x < a + n
    decreases n
  {
    if n == 0 then {} else {a} + Range(a + 1, n - 1)
  }

  /** New variables with these values. */
  ghost function Added(a: Var, vals: seq<Value>): map<Var, Value> {
    map x | x in Range(a, |vals|) :: vals[x - a]
  }

  ghost function ValuesFrom(s: View, level: nat): (r: seq<Value>)
    requires level <= |s.slots|
    ensures |r| == |s.slots| - level && forall i :: 0 <= i < |r| ==> r[i] == s.Get(s.slots[level + i])
  {
    var n := |s.slots| - level;
    seq(n, i requires 0 <= i < n => s.Get(s.slots[level + i]))
  }

  /** The slots from `level` on are new variables, with the values of the old ones. */
  ghost function Renamed(s: View, level: nat): View
    requires level <= |s.slots|
  {
    var n := |s.slots| - level;
    s.(slots := s.slots[..level] + Fresh(s.unused, n),
       store := s.store + Added(s.unused, ValuesFrom(s, level)),
       reach := if s.reach <= level then s.reach else level,
       unused := s.unused + n)
  }

  /** New slots are new variables without a value. */
  ghost function Resized(s: View, size: nat): View {
    if size <= |s.slots| then s.(slots := s.slots[..size])
    else
      var n := size - |s.slots|;
      s.(slots := s.slots + Fresh(s.unused, n),
         store := s.store + Added(s.unused, seq(n, _ => Nil)),
         unused := s.unused + n)
  }

  ghost predicate CanRun(s: View, ops: seq<Op>)
    decreases |ops|
  {
    ops == [] || (CanDo(s, ops[0]) && CanRun(Do(s, ops[0]), ops[1..]))
  }

  ghost function RunOf(s: View, ops: seq<Op>): View
    requires CanRun(s, ops)
    decreases |ops|
  {
    if ops == [] then s else RunOf(Do(s, ops[0]), ops[1..])
  }

  lemma DoOk(s: View, op: Op)
    requires s.Ok() && CanDo(s, op)
    ensures Do(s, op).Ok()
  {
    if op.Release? {
      assert forall x :: x in Do(s, op).held ==> x in s.held;
    }
  }

  /** The operation does not end the life of the variable in slot `i`, nor of the hold `h`. */
  predicate Keeps(op: Op, i: nat, h: nat) {
    match op
    case Close(level) => i < level
    case Resize(size, _) => i < size
    case Release(h') => h < h'
    case _ => true
  }

  /** A closure shares the variable of a slot until the slot is closed; from then on it is a variable of its own. */
  lemma {:induction false} SharedUntilClosed(s: View, ops: seq<Op>, i: nat, h: nat)
    requires s.Ok() && CanRun(s, ops) && i < |s.slots| && h < |s.held| && forall op :: op in ops ==> Keeps(op, i, h)
    ensures var s1 := RunOf(s, ops);
      && i < |s1.slots| && h < |s1.held| && s1.slots[i] == s.slots[i] && s1.held[h] == s.held[h]
      && (s.held[h] == s.slots[i] <==> s1.held[h] == s1.slots[i])
    decreases |ops|
  {
    if ops != [] {
      DoOk(s, ops[0]);
      assert ops[0] in ops;
      SharedUntilClosed(Do(s, ops[0]), ops[1..], i, h);
    }
  }

  /** After it is closed, a write to the slot does not change what the closure sees, and the other way round. */
  lemma ClosedApart(s: View, level: nat, i: nat, h: nat, v: Value)
    requires s.Ok() && level <= i < |s.slots| && h < |s.held|
    ensures var s1 := Renamed(s, level);
      && s1.Ok() && s1.Get(s1.held[h]) == s.Get(s.held[h]) && s1.Get(s1.slots[i]) == s.Get(s.slots[i])
      && Do(s1, SetSlot(i, v)).Get(s1.held[h]) == s.Get(s.held[h])
      && Do(s1, SetUpval(h, v)).Get(s1.slots[i]) == s.Get(s.slots[i])
  {
    DoOk(s, Close(level));
    assert Renamed(s, level).slots[i] == s.unused + (i - level);
  }

  // ----- what the memory means -----

  type Memory = map<Ref, UpVal>

  /** Open upvalues are in the list `l`, linked in this order, strictly descending by level and within the stack. */
  ghost predicate Listed(m: Memory, head: Link, l: seq<Ref>) {
    && head == (if l == [] then Null else To(l[0]))
    && (forall i {:trigger l[i]} :: 0 <= i < |l| ==> l[i] in m)
    && (forall i {:trigger NextIs(m, l, i)} :: 0 <= i < |l| ==> NextIs(m, l, i))
    && (forall r {:trigger r in m} :: r in m ==> (r in l <==> m[r].v.Slot?))
  }

  ghost predicate NextIs(m: Memory, l: seq<Ref>, i: int) {
    0 <= i < |l| && l[i] in m ==> m[l[i]].next == if i + 1 < |l| then To(l[i + 1]) else Null
  }

  ghost predicate Descending(m: Memory, l: seq<Ref>, base: int, n: nat) {
    && (forall i {:trigger Level(m, l, i)} :: 0 <= i < |l| ==> base <= Level(m, l, i) < base + n)
    && (forall i, j {:trigger Level(m, l, i), Level(m, l, j)} :: 0 <= i < j < |l| ==> Level(m, l, j) < Level(m, l, i))
  }

  ghost function Level(m: Memory, l: seq<Ref>, i: int): int {
    if 0 <= i < |l| && l[i] in m && m[l[i]].v.Slot? then m[l[i]].v.addr else 0
  }

  /** Every slot has the value of its variable. */
  ghost predicate SlotsMean(stack: seq<Value>, slots: seq<Var>, store: map<Var, Value>, home: map<Var, nat>) {
    && |slots| == |stack|
    && forall i {:trigger slots[i]} :: 0 <= i < |slots| ==>
         slots[i] in store && store[slots[i]] == stack[i] && slots[i] in home && home[slots[i]] == i
  }

  /** An open upvalue is for the variable of its slot. */
  ghost predicate OpenMean(m: Memory, base: int, slots: seq<Var>, variable: map<Ref, Var>) {
    forall r {:trigger m[r]} :: r in m && m[r].v.Slot? ==>
      r in variable && 0 <= m[r].v.addr - base < |slots| && variable[r] == slots[m[r].v.addr - base]
  }

  /**
   A closed upvalue has the value of its variable, which is not that of one of the first `lim` slots, nor of another
   one.
   */
  ghost predicate ClosedMean(m: Memory, variable: map<Ref, Var>, store: map<Var, Value>, home: map<Var, nat>,
      holder: map<Var, Ref>, lim: nat) {
    forall r {:trigger m[r]} :: r in m && m[r].v.Own? ==>
      && m[r].refcount > 0 && r in variable && variable[r] in store && store[variable[r]] == m[r].value
      && variable[r] in holder && holder[variable[r]] == r && (variable[r] in home ==> home[variable[r]] >= lim)
  }

  ghost predicate Bounded(store: map<Var, Value>, home: map<Var, nat>, n: nat, unused: Var) {
    && (forall x {:trigger x in store} :: x in store ==> x < unused)
    && (forall x {:trigger x in home} :: x in home ==> x < unused && home[x] < n)
  }

  /** The references that closures hold. */
  ghost predicate Counted(m: Memory, variable: map<Ref, Var>, handles: seq<Ref>, held: seq<Var>) {
    && |held| == |handles|
    && (forall h {:trigger handles[h]} {:trigger held[h]} :: 0 <= h < |handles| ==>
          handles[h] in m && handles[h] in variable && held[h] == variable[handles[h]])
    && forall r {:trigger m[r]} :: r in m ==> m[r].refcount == multiset(handles)[r]
  }

  ghost predicate Reached(m: Memory, base: int, reach: nat, n: nat) {
    && reach <= n
    && forall r {:trigger m[r]} :: r in m && m[r].v.Slot? ==> m[r].v.addr - base < reach
  }

  datatype Growth = Grown | Overflow | ErrorInError

  /** All of the state, as a value, and what it means. */
  datatype Snapshot = Snapshot(stack: seq<Value>, base: int, head: Link, m: Memory, handles: seq<Ref>, open: seq<Ref>,
      slots: seq<Var>,
    store: map<Var, Value>, variable: map<Ref, Var>, held: seq<Var>, reach: nat, unused: Var, home: map<Var, nat>,
      holder: map<Var, Ref>)
  {
    /** The invariant, while the slots from `lim` on are being closed. */
    ghost predicate Means(lim: nat) {
      && Listed(m, head, open) && Descending(m, open, base, |stack|) && Reached(m, base, reach, |slots|)
      && SlotsMean(stack, slots, store, home) && OpenMean(m, base, slots, variable)
      && ClosedMean(m, variable, store, home, holder, lim) && Bounded(store, home, |slots|, unused)
      && Counted(m, variable, handles, held)
    }

    ghost function Seen(): View {
      View(slots, store, held, reach, unused)
    }
  }

  class LuaState {
    var stack: seq<Value>
    var base: int
    var top: int
    var openupval: Link
    var upvals: Memory
    /** The calls, from the current one back. */
    var ci: seq<CallInfo>
    /** The upvalues that closures refer to, one for each reference. */
    var handles: seq<Ref>

    ghost var s: Snapshot

    ghost predicate Mirrored()
      reads this
    {
      stack == s.stack && base == s.base && openupval == s.head && upvals == s.m && handles == s.handles
    }

    ghost predicate Valid()
      reads this
    {
      Mirrored() && s.Means(|stack|)
    }

    ghost function Seen(): View
      reads this
    {
      s.Seen()
    }

    constructor (size: nat, at: int)
      ensures Valid() && Seen() == View(Fresh(0, size), Added(0, seq(size, _ => Nil)), [], 0, size)
    {
      var nils := seq(size, _ => Nil);
      stack, base, top, openupval, upvals, ci, handles := nils, at, at, Null, map[], [], [];
      s := Snapshot(nils, at, Null, map[], [], [], Fresh(0, size), Added(0, nils), map[], [], 0, size,
        map x | x in Range(0, size) :: x, map[]);
    }

    method GetSlot(i: nat) returns (v: Value)
      requires Valid() && i < |stack|
      ensures v == Seen().Get(Seen().slots[i])
    {
      assert s.slots[i] in s.store;
      return stack[i];
    }

    method SetSlot(i: nat, v: Value)
      requires Valid() && i < |stack|
      modifies `stack, `s
      ensures Valid() && Seen() == Written(old(Seen()), old(Seen()).slots[i], v)
    {
      s := SlotSet(s, i, v);
      stack := stack[i := v];
    }

    method GetUpval(h: nat) returns (v: Value)
      requires Valid() && h < |handles|
      ensures v == Seen().Get(Seen().held[h])
    {
      var uv := upvals[handles[h]];
      assert uv.v.Slot? ==> s.slots[uv.v.addr - base] in s.store;
      v := match uv.v
        case Slot(addr) => stack[addr - base]
        case Own => uv.value;
    }

    method SetUpval(h: nat, v: Value)
      requires Valid() && h < |handles|
      modifies `stack, `upvals, `s
      ensures Valid() && Seen() == Written(old(Seen()), old(Seen()).held[h], v)
    {
      var r := handles[h];
      match upvals[r].v {
        case Slot(addr) => SetSlot(addr - base, v);
        case Own => SetClosed(r, v);
      }
    }

    method SetClosed(r: Ref, v: Value)
      requires Valid() && r in upvals && upvals[r].v.Own?
      modifies `upvals, `s
      ensures Valid() && r in old(s).variable && Seen() == Written(old(Seen()), old(s).variable[r], v)
    {
      s := ClosedSet(s, r, v);
      upvals := upvals[r := upvals[r].(value := v)];
    }

    /** `luaF_findupval`; `at` is where a new upvalue would be. */
    method FindUpval(level: int, at: Ref) returns (r: Ref)
      requires Valid() && base <= level < base + |stack| && at !in upvals
      modifies `openupval, `upvals, `s
      ensures Valid() && r in upvals && r in s.variable && 0 <= level - base < |s.slots|
      ensures s.variable[r] == s.slots[level - base]
      ensures Seen() == old(Seen()).(reach := Above(old(Seen()).reach, level - base))
    {
      hide SlotsMean, ClosedMean, Bounded, Counted;
      ghost var i;
      var found, prev, p;
      found, prev, p, i := Search(upvals, openupval, level, s.open, base, |stack|);
      if found {
        r := p.ref;
      } else {
        NewUpval(level, at, prev, p, i);
        r := at;
      }
    }

    /** The search: the open upvalue for this level, or the place for it. */
    static method Search(m: Memory, head: Link, level: int, ghost l: seq<Ref>, ghost base: int, ghost n: nat)
      returns (found: bool, prev: Link, p: Link, ghost i: nat)
      requires Listed(m, head, l) && Descending(m, l, base, n)
      ensures found ==> p.To? && p.ref in m && m[p.ref].v == Slot(level)
      ensures !found ==>
        && i <= |l| && p == At(l, i) && prev == At(l, i - 1)
        && (i > 0 ==> level < Level(m, l, i - 1)) && (i < |l| ==> Level(m, l, i) < level)
    {
      prev, p, i, found := Null, head, 0, false;
      while p.To? && m[p.ref].v.addr >= level
        invariant i <= |l| && p == At(l, i) && prev == At(l, i - 1) && !found
        invariant i > 0 ==> level < Level(m, l, i - 1)
        decreases |l| - i
      {
        assert NextIs(m, l, i) && Level(m, l, i) == m[p.ref].v.addr;
        if m[p.ref].v.addr == level {
          found := true;
          return;
        }
        prev, p := p, m[p.ref].next;
        i := i + 1;
      }
      assert p.To? ==> Level(m, l, i) == m[p.ref].v.addr;
    }

    method NewUpval(level: int, at: Ref, prev: Link, p: Link, ghost i: nat)
      requires Valid() && base <= level < base + |stack| && at !in upvals
      requires i <= |s.open| && p == At(s.open, i) && prev == At(s.open, i - 1)
      requires (i > 0 ==> level < Level(upvals, s.open, i - 1)) && (i < |s.open| ==> Level(upvals, s.open, i) < level)
      modifies `openupval, `upvals, `s
      ensures Valid() && at in upvals && at in s.variable && 0 <= level - base < |s.slots|
      ensures s.variable[at] == s.slots[level - base]
      ensures Seen() == old(Seen()).(reach := Above(old(Seen()).reach, level - base))
    {
      hide Descending, ClosedMean, Bounded, Counted, OpenMean, Reached;
      ghost var s1 := NewMeans(s, i, level, at);
      var head, m := InsertUpval(openupval, upvals, level, at, prev, p, s.open, i);
      openupval, upvals, s := head, m, s1;
    }

    /** A new upvalue is linked in after `prev`. */
    static method InsertUpval(head0: Link, m0: Memory, level: int, at: Ref, prev: Link, p: Link, ghost l: seq<Ref>,
        ghost i: nat)
      returns (head: Link, m: Memory)
      requires i <= |l| && p == At(l, i) && prev == At(l, i - 1) && (prev.To? ==> prev.ref in m0)
      ensures head == (if i == 0 then To(at) else head0) && m == Inserted(m0, l, i, level, at)
    {
      head, m := head0, m0;
      if prev.Null? {
        head := To(at);
      } else {
        m := m[prev.ref := m[prev.ref].(next := To(at))];
      }
      m := m[at := UpVal(Slot(level), 0, p, Nil)];
    }

    /** A closure takes hold of the variable in slot `i`. */
    method Capture(i: nat, at: Ref)
      requires Valid() && i < |stack| && at !in upvals
      modifies `openupval, `upvals, `handles, `s
      ensures Valid() && Seen() == Captured(old(Seen()), i)
    {
      hide Snapshot.Means;
      var r := FindUpval(base + i, at);
      assert s.variable[r] == old(s).slots[i] by {
        assert s.slots == s.Seen().slots && old(s).Seen().slots == old(s).slots;
      }
      Hold(r);
    }

    method Hold(r: Ref)
      requires Valid() && r in upvals && r in s.variable
      modifies `upvals, `handles, `s
      ensures Valid() && Seen() == old(Seen()).(held := old(Seen()).held + [old(s).variable[r]])
    {
      hide Snapshot.Means;
      ghost var s1 := HoldMeans(s, r);
      s, upvals, handles := s1, upvals[r := upvals[r].(refcount := upvals[r].refcount + 1)], handles + [r];
    }

    /** `luaC_upvdeccount`: a closure that held the upvalue was freed. */
    method Release(h: nat)
      requires Valid() && h < |handles|
      modifies `upvals, `handles, `s
      ensures Valid() && Seen() == Released(old(Seen()), h)
    {
      hide Snapshot.Means;
      ghost var s1 := ReleaseMeans(s, h);
      var m := Uncount(upvals, handles[h]);
      upvals, handles, s := m, handles[..h] + handles[h + 1..], s1;
    }

    static method Uncount(m: Memory, r: Ref) returns (m1: Memory)
      requires r in m && m[r].refcount > 0
      ensures m1 == Uncounted(m, r)
    {
      var uv := m[r].(refcount := m[r].refcount - 1);
      m1 := m[r := uv];
      if uv.refcount == 0 && uv.v.Own? {
        m1 := m1 - {r};
      }
    }

    /** `luaF_close`. */
    method Close(level: nat)
      requires Valid() && level <= |stack|
      modifies `openupval, `upvals, `s
      ensures Valid() && Seen() == Renamed(old(Seen()), level)
    {
      hide ClosedMean, Bounded, Counted, OpenMean, Reached;
      ghost var lim := |stack|;
      while openupval.To? && upvals[openupval.ref].v.addr >= base + level
        invariant level <= lim <= |stack| && Mirrored() && s.Means(lim) && Seen() == old(Seen())
        invariant s.open != [] ==> Level(upvals, s.open, 0) < base + lim
        decreases |s.open|
      {
        ghost var limit := lim;
        lim := upvals[openupval.ref].v.addr - base;
        assert Level(upvals, s.open, 0) == base + lim;
        LowerLimit(s.m, s.variable, s.store, s.home, s.holder, limit, lim + 1);
        CloseFirst(lim);
      }
      assert s.open != [] ==> Level(upvals, s.open, 0) < base + level;
      s := RenameMeans(s, level, lim);
    }

    /** `correctstack`: all pointers into the stack follow it. */
    method CorrectStack(oldstack: int, ghost n: nat)
      requires Listed(upvals, openupval, s.open) && Descending(upvals, s.open, oldstack, n)
      modifies `top, `upvals, `ci
      ensures top == old(top) - oldstack + base && upvals == Relocated(old(upvals), oldstack, base)
      ensures MovedCalls(old(ci), ci, oldstack, base)
    {
      top := top - oldstack + base;
      upvals := MoveUpvals(upvals, openupval, oldstack, base, s.open, n);
      ci := MoveCalls(ci, oldstack, base);
    }

    static method MoveCalls(calls: seq<CallInfo>, oldstack: int, stack: int) returns (ci: seq<CallInfo>)
      ensures MovedCalls(calls, ci, oldstack, stack)
    {
      ci := calls;
      var j := 0;
      while j < |ci|
        invariant j <= |ci| == |calls|
        invariant forall x :: 0 <= x < |ci| ==>
          ci[x] == if x < j then MovedCall(calls[x], oldstack, stack) else calls[x]
      {
        ci := ci[j := MovedCall(ci[j], oldstack, stack)];
        j := j + 1;
      }
    }

    static method MoveUpvals(m0: Memory, head: Link, oldstack: int, stack: int, ghost l: seq<Ref>, ghost n: nat)
        returns (m: Memory)
      requires Listed(m0, head, l) && Descending(m0, l, oldstack, n)
      ensures m == Relocated(m0, oldstack, stack)
    {
      m := m0;
      var up := head;
      ghost var i := 0;
      Apart(m0, l, oldstack, n);
      while up.To?
        invariant i <= |l| && up == At(l, i) && m.Keys == m0.Keys
        invariant forall r :: r in m0 ==> m[r] == if r in l[..i] then MovedUpval(m0[r], oldstack, stack) else m0[r]
        decreases |l| - i
      {
        var r := up.ref;
        assert NextIs(m0, l, i) && l[i] in m0 && l[..i + 1] == l[..i] + [r] && r !in l[..i];
        m := m[r := MovedUpval(m[r], oldstack, stack)];
        up := m[r].next;
        i := i + 1;
      }
      assert l[..i] == l;
    }

    /** `luaD_reallocstack`; `at` is where the allocator puts the new block. */
    method ReallocStack(newsize: nat, at: int)
      requires Valid() && s.reach <= newsize
      modifies `stack, `base, `top, `upvals, `ci, `s
      ensures Valid() && Seen() == Resized(old(Seen()), newsize) && |stack| == newsize && base == at
      ensures top - base == old(top - base) && MovedCalls(old(ci), ci, old(base), base)
    {
      hide SlotsMean, ClosedMean, Bounded, Counted, OpenMean, Reached;
      var oldstack, lim := base, |stack|;
      ghost var s1 := ResizeMeans(s, newsize, at);
      var block := if newsize < lim then stack[..newsize] else stack;
      while lim < newsize
        invariant |stack| <= lim
        invariant block == (if newsize < |stack| then stack[..newsize] else stack + seq(lim - |stack|, _ => Nil))
        invariant lim <= newsize || lim == |stack|
      {
        block := block + [Nil];
        lim := lim + 1;
      }
      ghost var n := |stack|;
      stack, base := block, at;
      CorrectStack(oldstack, n);
      s := s1;
    }

    /** `luaD_growstack`: room for `n` more values, or an error. */
    method GrowStack(n: nat, at: int) returns (r: Growth)
      requires Valid() && base <= top
      modifies `stack, `base, `top, `upvals, `ci, `s
      ensures Valid() && top - base == old(top - base)
      ensures r.ErrorInError? <==> |old(stack)| > LUAI_MAXSTACK
      ensures r.Overflow? <==> |old(stack)| <= LUAI_MAXSTACK && old(top - base) + n + EXTRA_STACK > LUAI_MAXSTACK
      ensures r.Grown? ==> top + n + EXTRA_STACK <= base + |stack| && |old(stack)| <= |stack| <= LUAI_MAXSTACK
      ensures Seen() == if r.ErrorInError? then old(Seen()) else Resized(old(Seen()), |stack|)
      ensures r.Overflow? ==> |stack| == ERRORSTACKSIZE
    {
      hide Listed, Descending, ClosedMean, Bounded, Counted, OpenMean, Resized;
      var size := |stack|;
      if size > LUAI_MAXSTACK {
        return ErrorInError;
      }
      var needed := top - base + n + EXTRA_STACK;
      var newsize := 2 * size;
      if newsize > LUAI_MAXSTACK {
        newsize := LUAI_MAXSTACK;
      }
      if newsize < needed {
        newsize := needed;
      }
      if newsize > LUAI_MAXSTACK {
        ReallocStack(ERRORSTACKSIZE, at);
        return Overflow;
      }
      ReallocStack(newsize, at);
      return Grown;
    }

    method Perform(op: Op, at: Ref)
      requires Valid() && CanDo(Seen(), op) && at !in upvals
      modifies this
      ensures Valid() && Seen() == Do(old(Seen()), op)
    {
      hide Snapshot.Means, Renamed, Resized;
      Sizes(s);
      match op
      case SetSlot(i, v) => SetSlot(i, v);
      case Capture(i) => Capture(i, at);
      case SetUpval(h, v) => SetUpval(h, v);
      case Release(h) => Release(h);
      case Close(level) => Close(level);
      case Resize(size, block) => ReallocStack(size, block);
    }

    /** Any run does to the variables what it means, wherever the stack is moved and the upvalues are. */
    method Run(ops: seq<Op>)
      requires Valid() && CanRun(Seen(), ops)
      modifies this
      ensures Valid() && Seen().Ok() && Seen() == RunOf(old(Seen()), ops)
    {
      hide Snapshot.Means, Do, View.Ok;
      ghost var v := Seen();
      var i := 0;
      assert ops[0..] == ops;
      while i < |ops|
        invariant i <= |ops| && Valid() && CanRun(Seen(), ops[i..]) && RunOf(Seen(), ops[i..]) == RunOf(v, ops)
      {
        assert ops[i..][0] == ops[i] && ops[i..][1..] == ops[i + 1..];
        var at := NewAddress(upvals);
        Perform(ops[i], at);
        i := i + 1;
      }
      SeenOk(s);
    }

    /** Any address that is not in use. */
    static method NewAddress(m: Memory) returns (at: Ref)
      ensures at !in m
    {
      var rest := m.Keys;
      at := 0;
      while rest != {}
        invariant forall r :: r in m && r !in rest ==> r < at
      {
        var r :| r in rest;
        rest := rest - {r};
        if at <= r {
          at := r + 1;
        }
      }
    }

    /** The first open upvalue is closed, or freed when no closure holds it. */
    method CloseFirst(ghost k: nat)
      requires openupval.To? && Mirrored() && s.Means(k + 1) && k < |stack| && Level(upvals, s.open, 0) == base + k
      modifies `openupval, `upvals, `s
      ensures Mirrored() && s.Means(k) && Seen() == old(Seen()) && s.open == old(s).open[1..]
      ensures s.open != [] ==> Level(upvals, s.open, 0) < base + k
    {
      hide Descending, ClosedMean, Bounded, Counted, OpenMean, Reached;
      ghost var s1 := CloseMeans(s, k);
      var r := openupval.ref;
      var m := CloseOne(upvals, r, stack[upvals[r].v.addr - base]);
      openupval, upvals, s := upvals[r].next, m, s1;
    }

    static method CloseOne(m: Memory, r: Ref, v: Value) returns (m1: Memory)
      requires r in m
      ensures m1 == Closed(m, r, v)
    {
      if m[r].refcount == 0 {
        return m - {r};
      }
      return m[r := UpVal(Own, m[r].refcount, Null, v)];
    }
  }

  lemma Sizes(s: Snapshot)
    requires s.Means(|s.stack|)
    ensures |s.slots| == |s.stack| && |s.held| == |s.handles|
  {
  }

  lemma SeenOk(s: Snapshot)
    requires s.Means(|s.stack|)
    ensures s.Seen().Ok()
  {
    forall i, j | 0 <= i < j < |s.slots| ensures s.slots[i] != s.slots[j] {
      assert s.home[s.slots[i]] == i && s.home[s.slots[j]] == j;
    }
    forall h | 0 <= h < |s.held| ensures s.held[h] in s.store && forall i :: s.reach <= i < |s.slots| ==>
      s.slots[i] != s.held[h] {
      var uv := s.m[s.handles[h]];
      if uv.v.Slot? {
        var x := s.slots[uv.v.addr - s.base];
        assert x in s.store && s.home[x] < s.reach && s.held[h] == x;
      } else {
        assert uv.v.Own?;
      }
      forall i | s.reach <= i < |s.slots| ensures s.slots[i] != s.held[h] {
        assert s.home[s.slots[i]] == i;
      }
    }
  }

  function MovedUpval(uv: UpVal, oldstack: int, stack: int): UpVal {
    if uv.v.Slot? then uv.(v := Slot(uv.v.addr - oldstack + stack)) else uv
  }

  function MovedCall(c: CallInfo, oldstack: int, stack: int): CallInfo {
    c.(top := c.top - oldstack + stack, func := c.func - oldstack + stack,
      frame := if c.isLua then c.frame - oldstack + stack else c.frame)
  }

  ghost predicate MovedCalls(calls: seq<CallInfo>, ci: seq<CallInfo>, oldstack: int, stack: int) {
    |ci| == |calls| && forall j :: 0 <= j < |ci| ==> ci[j] == MovedCall(calls[j], oldstack, stack)
  }

  ghost function Relocated(m: Memory, oldstack: int, stack: int): Memory {
    map r | r in m :: MovedUpval(m[r], oldstack, stack)
  }

  ghost function Block(stack: seq<Value>, newsize: nat): seq<Value> {
    if newsize < |stack| then stack[..newsize] else stack + seq(newsize - |stack|, _ => Nil)
  }

  ghost function HomeFor(home: map<Var, nat>, n: nat, size: nat, unused: Var): map<Var, nat> {
    if size <= n then map x | x in home && home[x] < size :: home[x]
    else
      var added := Range(unused, size - n);
      home + map x | x in added :: n + x - unused
  }

  lemma ResizeMeans(s: Snapshot, size: nat, at: int) returns (s1: Snapshot)
    requires s.Means(|s.stack|) && s.reach <= size
    ensures s1 == s.(stack := Block(s.stack, size), base := at, m := Relocated(s.m, s.base, at), slots := s1.slots,
      store := s1.store, home := s1.home,
      unused := s1.unused)
    ensures s1.Means(size) && s1.Seen() == Resized(s.Seen(), size)
  {
    var v := Resized(s.Seen(), size);
    s1 := s.(stack := Block(s.stack, size), base := at, m := Relocated(s.m, s.base, at), slots := v.slots,
      store := v.store,
      home := HomeFor(s.home, |s.slots|, size, s.unused), unused := v.unused);
    MovedList(s.m, s.head, s.open, s.base, |s.stack|, s.reach, |s.slots|, at, size);
    ResizedSlots(s.stack, s.Seen(), s.home, size);
    MovedOpen(s.m, s.base, s.slots, v.slots, s.variable, s.reach, at, size);
    MovedClosed(s.m, s.variable, s.store, v.store, s.home, s1.home, s.holder, |s.slots|, size, s.base, at);
    MovedCounts(s.m, s.variable, s.handles, s.held, s.base, at);
  }

  lemma MovedList(m: Memory, head: Link, l: seq<Ref>, base: int, n: nat, reach: nat, slots: nat, at: int, size: nat)
    requires Listed(m, head, l) && Descending(m, l, base, n) && Reached(m, base, reach, slots) && reach <= size
    ensures Listed(Relocated(m, base, at), head, l) && Descending(Relocated(m, base, at), l, at, size)
    ensures Reached(Relocated(m, base, at), at, reach, size)
  {
    var m1 := Relocated(m, base, at);
    forall i | 0 <= i < |l| ensures NextIs(m1, l, i) {
      assert NextIs(m, l, i) && l[i] in m;
    }
    forall i | 0 <= i < |l| ensures Level(m1, l, i) == Level(m, l, i) - base + at && Level(m, l, i) - base < reach {
      assert l[i] in m && m[l[i]].v.Slot?;
    }
  }

  lemma ResizedSlots(stack: seq<Value>, v: View, home: map<Var, nat>, size: nat)
    requires SlotsMean(stack, v.slots, v.store, home) && Bounded(v.store, home, |v.slots|, v.unused)
    ensures var v1, home1 := Resized(v, size), HomeFor(home, |v.slots|, size, v.unused);
      && SlotsMean(Block(stack, size), v1.slots, v1.store, home1) && Bounded(v1.store, home1, |v1.slots|, v1.unused)
      && (forall x :: x in v.store ==> x in v1.store && v1.store[x] == v.store[x]) && |v1.slots| == size
  {
    hide Resized, HomeFor, Block;
    ResizedBounds(stack, v, home, size);
    var v1 := Resized(v, size);
    forall i | 0 <= i < |v1.slots|
      ensures v1.slots[i] in v1.store && v1.store[v1.slots[i]] == Block(stack, size)[i]
      ensures var home1 := HomeFor(home, |v.slots|, size, v.unused);
        v1.slots[i] in home1 && home1[v1.slots[i]] == i
    {
      ResizedSlot(stack, v, home, size, i);
    }
  }

  lemma ResizedBounds(stack: seq<Value>, v: View, home: map<Var, nat>, size: nat)
    requires Bounded(v.store, home, |v.slots|, v.unused) && |stack| == |v.slots|
    ensures var v1, home1 := Resized(v, size), HomeFor(home, |v.slots|, size, v.unused);
      && Bounded(v1.store, home1, |v1.slots|, v1.unused) && |v1.slots| == size == |Block(stack, size)|
      && forall x :: x in v.store ==> x in v1.store && v1.store[x] == v.store[x]
  {
  }

  lemma ResizedSlot(stack: seq<Value>, v: View, home: map<Var, nat>, size: nat, i: nat)
    requires |stack| == |v.slots| && i < size && forall x :: x in v.store || x in home ==> x < v.unused
    requires i < |stack| ==>
      v.slots[i] in v.store && v.store[v.slots[i]] == stack[i] && v.slots[i] in home && home[v.slots[i]] == i
    ensures var v1, home1 := Resized(v, size), HomeFor(home, |v.slots|, size, v.unused);
      && |v1.slots| == size && v1.slots[i] in v1.store && v1.store[v1.slots[i]] == Block(stack, size)[i]
      && v1.slots[i] in home1 && home1[v1.slots[i]] == i
  {
    var v1 := Resized(v, size);
    if i < |v.slots| {
      assert v1.slots[i] == v.slots[i];
    } else {
      assert v1.slots[i] == v.unused + (i - |v.slots|);
    }
  }

  lemma MovedOpen(m: Memory, base: int, slots: seq<Var>, slots1: seq<Var>, variable: map<Ref, Var>, reach: nat,
      at: int, size: nat)
    requires OpenMean(m, base, slots, variable) && Reached(m, base, reach, |slots|) && reach <= size == |slots1|
    requires forall i :: 0 <= i < |slots| && i < size ==> slots1[i] == slots[i]
    ensures OpenMean(Relocated(m, base, at), at, slots1, variable)
  {
    var m1 := Relocated(m, base, at);
    forall r | r in m1 && m1[r].v.Slot?
      ensures r in variable && 0 <= m1[r].v.addr - at < |slots1| && variable[r] == slots1[m1[r].v.addr - at]
    {
      assert r in m && m1[r].v.addr - at == m[r].v.addr - base;
    }
  }

  lemma MovedClosed(m: Memory, variable: map<Ref, Var>, store: map<Var, Value>, store1: map<Var, Value>,
      home: map<Var, nat>, home1: map<Var, nat>,
      holder: map<Var, Ref>, n: nat, size: nat, base: int, at: int)
    requires ClosedMean(m, variable, store, home, holder, n)
    requires (forall x :: x in store ==> x in store1 && store1[x] == store[x])
    requires forall x :: x in store && x in home1 ==> x in home && home[x] < n
    ensures ClosedMean(Relocated(m, base, at), variable, store1, home1, holder, size)
  {
    var m1 := Relocated(m, base, at);
    forall r | r in m1 && m1[r].v.Own? ensures m1[r] == m[r] {
    }
  }

  lemma MovedCounts(m: Memory, variable: map<Ref, Var>, handles: seq<Ref>, held: seq<Var>, base: int, at: int)
    requires Counted(m, variable, handles, held)
    ensures Counted(Relocated(m, base, at), variable, handles, held)
  {
  }

  // ----- why each operation keeps the invariant -----

  lemma SlotSet(s: Snapshot, i: nat, v: Value) returns (s1: Snapshot)
    requires s.Means(|s.stack|) && i < |s.slots|
    ensures s1 == s.(stack := s.stack[i := v], store := s.store[s.slots[i] := v]) && s1.Means(|s.stack|)
  {
    s1 := s.(stack := s.stack[i := v], store := s.store[s.slots[i] := v]);
    SlotWritten(s.stack, s.slots, s.store, s.home, s.unused, i, v);
    ClosedKept(s.m, s.variable, s.store, s.home, s.holder, s.slots[i], v, |s.stack|);
  }

  lemma ClosedSet(s: Snapshot, r: Ref, v: Value) returns (s1: Snapshot)
    requires s.Means(|s.stack|) && r in s.m && s.m[r].v.Own?
    ensures r in s.variable
    ensures s1 == s.(m := s.m[r := s.m[r].(value := v)], store := s.store[s.variable[r] := v])
    ensures s1.Means(|s.stack|)
  {
    s1 := s.(m := s.m[r := s.m[r].(value := v)], store := s.store[s.variable[r] := v]);
    ClosedWritten(s.m, s.variable, s.store, s.home, s.holder, r, v, |s.stack|);
    OtherSlots(s.stack, s.slots, s.store, s.home, s.variable[r], v);
    SameList(s.m, s.head, s.open, s.base, |s.stack|, r, s.m[r].(value := v));
    SameOpen(s.m, s.m[r := s.m[r].(value := v)], s.base, s.slots, s.variable, s.reach);
    SameCounts(s.m, s.m[r := s.m[r].(value := v)], s.variable, s.handles, s.held);
  }

  lemma NewMeans(s: Snapshot, i: nat, level: int, at: Ref) returns (s1: Snapshot)
    requires s.Means(|s.stack|) && s.base <= level < s.base + |s.stack| && at !in s.m && i <= |s.open|
    requires (i > 0 ==> level < Level(s.m, s.open, i - 1)) && (i < |s.open| ==> Level(s.m, s.open, i) < level)
    ensures s1 == s.(m := Inserted(s.m, s.open, i, level, at), head := if i == 0 then To(at) else s.head,
      open := s1.open, variable := s.variable[at := s.slots[level - s.base]], reach := Above(s.reach, level - s.base))
    ensures s1.Means(|s.stack|)
    ensures at in s1.m && at in s1.variable && 0 <= level - s.base < |s1.slots|
    ensures s1.variable[at] == s1.slots[level - s.base]
    ensures s1.Seen() == s.Seen().(reach := Above(s.Seen().reach, level - s.base))
  {
    s1 := s.(m := Inserted(s.m, s.open, i, level, at), head := if i == 0 then To(at) else s.head,
      open := s.open[..i] + [at] + s.open[i..], variable := s.variable[at := s.slots[level - s.base]],
        reach := Above(s.reach, level - s.base));
    LinkNew(s.m, s.head, s.open, s.base, |s.stack|, i, level, at);
    InsertedSame(s.m, s.open, i, level, at);
    OneMore(s.m, Inserted(s.m, s.open, i, level, at), s.base, s.slots, s.variable, at, s.store, s.home, s.holder,
      s.handles, s.held, s.reach, level);
  }

  lemma HoldMeans(s: Snapshot, r: Ref) returns (s1: Snapshot)
    requires s.Means(|s.stack|) && r in s.m && r in s.variable
    ensures s1 == s.(m := s.m[r := s.m[r].(refcount := s.m[r].refcount + 1)], handles := s.handles + [r],
      held := s.held + [s.variable[r]])
    ensures s1.Means(|s.stack|)
  {
    hide Listed, Descending, SlotsMean, Bounded, Counted, OpenMean, Reached;
    s1 := s.(m := s.m[r := s.m[r].(refcount := s.m[r].refcount + 1)], handles := s.handles + [r],
      held := s.held + [s.variable[r]]);
    var m1 := s.m[r := s.m[r].(refcount := s.m[r].refcount + 1)];
    SameList(s.m, s.head, s.open, s.base, |s.stack|, r, m1[r]);
    SameOpen(s.m, m1, s.base, s.slots, s.variable, s.reach);
    SameClosed(s.m, m1, s.variable, s.store, s.home, s.holder, |s.stack|);
    CountMore(s.m, s.variable, s.handles, s.held, r);
  }

  ghost function Uncounted(m: Memory, r: Ref): Memory
    requires r in m && m[r].refcount > 0
  {
    var uv := m[r].(refcount := m[r].refcount - 1);
    if uv.refcount == 0 && uv.v.Own? then m[r := uv] - {r} else m[r := uv]
  }

  lemma ReleaseMeans(s: Snapshot, h: nat) returns (s1: Snapshot)
    requires s.Means(|s.stack|) && h < |s.handles|
    ensures s.handles[h] in s.m && s.m[s.handles[h]].refcount > 0
    ensures s1 == s.(m := Uncounted(s.m, s.handles[h]), handles := s.handles[..h] + s.handles[h + 1..],
      held := s.held[..h] + s.held[h + 1..])
    ensures s1.Means(|s.stack|)
  {
    hide Listed, Descending, SlotsMean, Bounded, Reached;
    var r := s.handles[h];
    CountLess(s.m, s.variable, s.handles, s.held, h);
    s1 := s.(m := Uncounted(s.m, r), handles := s.handles[..h] + s.handles[h + 1..],
      held := s.held[..h] + s.held[h + 1..]);
    var uv := s.m[r].(refcount := s.m[r].refcount - 1);
    var m1 := s.m[r := uv];
    SameList(s.m, s.head, s.open, s.base, |s.stack|, r, uv);
    SameOpen(s.m, m1, s.base, s.slots, s.variable, s.reach);
    if uv.refcount == 0 && uv.v.Own? {
      FreeClosed(m1, s.head, s.open, s.base, |s.stack|, r);
      SameOpen(m1, m1 - {r}, s.base, s.slots, s.variable, s.reach);
      SameClosed(s.m, m1 - {r}, s.variable, s.store, s.home, s.holder, |s.stack|);
    } else {
      SameClosed(s.m, m1, s.variable, s.store, s.home, s.holder, |s.stack|);
    }
  }

  ghost function Closed(m: Memory, r: Ref, v: Value): Memory
    requires r in m
  {
    if m[r].refcount == 0 then m - {r} else m[r := UpVal(Own, m[r].refcount, Null, v)]
  }

  lemma CloseMeans(s: Snapshot, k: nat) returns (s1: Snapshot)
    requires s.Means(k + 1) && s.open != [] && k < |s.slots| && Level(s.m, s.open, 0) == s.base + k
    ensures s.open[0] in s.m && s1.m == Closed(s.m, s.open[0], s.stack[k]) && s1.head == s.m[s.open[0]].next
    ensures s1 == s.(m := s1.m, head := s1.head, open := s.open[1..], holder := s1.holder) && s1.Means(k)
    ensures s1.open != [] ==> Level(s1.m, s1.open, 0) < s.base + k
  {
    hide Descending, Counted, Reached, ClosedMean, SlotsMean, Bounded;
    CloseRecords(s, k);
    var r := s.open[0];
    var m1 := Closed(s.m, r, s.stack[k]);
    s1 := s.(m := m1, head := s.m[r].next, open := s.open[1..],
      holder := if s.m[r].refcount == 0 then s.holder else s.holder[s.variable[r] := r]);
    Unlinked(s.m, m1, s.open, s.base, |s.stack|);
    SameOpen(s.m, m1, s.base, s.slots, s.variable, s.reach);
  }

  /** What the closed upvalues mean, and the counts, after the first open one is closed or freed. */
  lemma CloseRecords(s: Snapshot, k: nat)
    requires s.Means(k + 1) && s.open != [] && k < |s.slots| && Level(s.m, s.open, 0) == s.base + k
    ensures k < |s.stack| && s.open[0] in s.m && s.m[s.open[0]].v.Slot? && s.open[0] in s.variable
    ensures var r := s.open[0];
      var m1 := Closed(s.m, r, s.stack[k]);
      && ClosedMean(m1, s.variable, s.store, s.home,
           if s.m[r].refcount == 0 then s.holder else s.holder[s.variable[r] := r], k)
      && Counted(m1, s.variable, s.handles, s.held)
  {
    hide Descending, Counted, Reached;
    var r := s.open[0];
    var m1 := Closed(s.m, r, s.stack[k]);
    assert s.home[s.slots[k]] == k && s.variable[r] == s.slots[k];
    if s.m[r].refcount == 0 {
      FreedCount(s.m, s.variable, s.handles, s.held, r);
      SameClosed(s.m, m1, s.variable, s.store, s.home, s.holder, k + 1);
      LowerLimit(m1, s.variable, s.store, s.home, s.holder, k + 1, k);
    } else {
      SameCounts(s.m, m1, s.variable, s.handles, s.held);
      OneClosed(s.m, r, s.stack[k], s.variable, s.store, s.home, s.holder, k);
    }
  }

  lemma LowerLimit(m: Memory, variable: map<Ref, Var>, store: map<Var, Value>, home: map<Var, nat>, holder: map<Var,
      Ref>, lim: nat, k: nat)
    requires ClosedMean(m, variable, store, home, holder, lim) && k <= lim
    ensures ClosedMean(m, variable, store, home, holder, k)
  {
  }

  ghost function Rehomed(home: map<Var, nat>, level: nat, unused: Var, n: nat): map<Var, nat> {
    map x | x in home.Keys + Range(unused, n) && (x in Range(unused, n) || home[x] < level) ::
      if x in Range(unused, n) then level + x - unused else home[x]
  }

  lemma RenamedView(s: View, level: nat)
    requires level <= |s.slots|
    ensures var v := Renamed(s, level);
      && v.held == s.held && v.reach == (if s.reach <= level then s.reach else level)
      && |v.slots| == |s.slots| && v.slots[..level] == s.slots[..level]
  {
  }

  lemma RehomedBelow(home: map<Var, nat>, level: nat, unused: Var, n: nat)
    ensures var home1 := Rehomed(home, level, unused, n);
      forall x :: x in home1 ==> x >= unused || (x in home && home[x] < level)
  {
  }

  lemma RenameMeans(s: Snapshot, level: nat, lim: nat) returns (s1: Snapshot)
    requires level <= lim <= |s.slots| && s.Means(lim) && (s.open != [] ==> Level(s.m, s.open, 0) < s.base + level)
    ensures s1 == s.(slots := s1.slots, store := s1.store, reach := s1.reach, unused := s1.unused, home := s1.home)
    ensures s1.Seen() == Renamed(s.Seen(), level)
    ensures s1.Means(|s.stack|)
  {
    var n, v := |s.slots| - level, Renamed(View(s.slots, s.store, s.held, s.reach, s.unused), level);
    var home1 := Rehomed(s.home, level, s.unused, n);
    hide Listed, Descending, OpenMean, Reached, ClosedMean, Counted, Rehomed, Bounded, SlotsMean, Renamed;
    RehomedBelow(s.home, level, s.unused, n);
    RenamedView(View(s.slots, s.store, s.held, s.reach, s.unused), level);
    AllBelow(s.m, s.head, s.open, s.base, |s.stack|, level);
    RenamedSlots(s.stack, s.slots, s.store, s.home, s.held, s.reach, level, s.unused);
    RenamedOpen(s.m, s.base, s.slots, v.slots, s.variable, level, s.reach);
    LowerLimit(s.m, s.variable, s.store, s.home, s.holder, lim, level);
    RenamedClosed(s.m, s.variable, s.store, v.store, s.home, home1, s.holder, level, |s.stack|, s.unused);
    s1 := s.(slots := v.slots, store := v.store, reach := v.reach, unused := v.unused, home := home1);
  }

  lemma RenamedSlots(stack: seq<Value>, slots: seq<Var>, store: map<Var, Value>, home: map<Var, nat>, held: seq<Var>,
      reach: nat, level: nat, unused: Var)
    requires SlotsMean(stack, slots, store, home) && Bounded(store, home, |slots|, unused) && level <= |slots|
    ensures var v := Renamed(View(slots, store, held, reach, unused), level);
      && SlotsMean(stack, v.slots, v.store, Rehomed(home, level, unused, |slots| - level))
      && Bounded(v.store, Rehomed(home, level, unused, |slots| - level), |v.slots|, v.unused)
      && v.held == held
      && forall x :: x in store ==> x < unused && x in v.store && v.store[x] == store[x]
  {
    var s0 := View(slots, store, held, reach, unused);
    var v := Renamed(s0, level);
    forall i | 0 <= i < |v.slots|
      ensures v.slots[i] in v.store && v.store[v.slots[i]] == stack[i]
      ensures var home1 := Rehomed(home, level, unused, |slots| - level);
        v.slots[i] in home1 && home1[v.slots[i]] == i
    {
      RenamedSlot(s0, home, level, i);
    }
  }

  lemma RenamedSlot(s: View, home: map<Var, nat>, level: nat, i: nat)
    requires level <= |s.slots| && i < |s.slots| && s.slots[i] in s.store && s.slots[i] in home && home[s.slots[i]] == i
    requires forall x :: x in s.store || x in home ==> x < s.unused
    ensures var v, home1 := Renamed(s, level), Rehomed(home, level, s.unused, |s.slots| - level);
      && v.slots[i] in v.store && v.store[v.slots[i]] == s.store[s.slots[i]]
      && v.slots[i] in home1 && home1[v.slots[i]] == i
  {
    var v := Renamed(s, level);
    if i < level {
      assert v.slots[i] == s.slots[i];
    } else {
      var x := s.unused + (i - level);
      assert v.slots[i] == x && x in Range(s.unused, |s.slots| - level) && level + (i - level) == i;
      assert v.store[x] == ValuesFrom(s, level)[i - level];
    }
  }

  lemma RenamedOpen(m: Memory, base: int, slots: seq<Var>, slots1: seq<Var>, variable: map<Ref, Var>, level: nat,
      reach: nat)
    requires OpenMean(m, base, slots, variable) && Reached(m, base, reach, |slots|)
    requires level <= |slots| == |slots1| && slots1[..level] == slots[..level]
    requires forall r :: r in m && m[r].v.Slot? ==> m[r].v.addr < base + level
    ensures OpenMean(m, base, slots1, variable) && Reached(m, base, if reach <= level then reach else level, |slots1|)
  {
    forall r | r in m && m[r].v.Slot? ensures slots1[m[r].v.addr - base] == slots[m[r].v.addr - base] {
      var i := m[r].v.addr - base;
      assert slots1[i] == slots1[..level][i] == slots[..level][i];
    }
  }

  lemma RenamedClosed(m: Memory, variable: map<Ref, Var>, store: map<Var, Value>, store1: map<Var, Value>,
      home: map<Var, nat>, home1: map<Var, nat>,
      holder: map<Var, Ref>, level: nat, n: nat, unused: Var)
    requires ClosedMean(m, variable, store, home, holder, level)
    requires (forall x :: x in store ==> x < unused && x in store1 && store1[x] == store[x])
    requires forall x :: x in home1 ==> x >= unused || (x in home && home[x] < level)
    ensures ClosedMean(m, variable, store1, home1, holder, n)
  {
  }

  lemma SameOpen(m: Memory, m1: Memory, base: int, slots: seq<Var>, variable: map<Ref, Var>, reach: nat)
    requires OpenMean(m, base, slots, variable) && Reached(m, base, reach, |slots|)
    requires forall r :: r in m1 && m1[r].v.Slot? ==> r in m && m[r].v == m1[r].v
    ensures OpenMean(m1, base, slots, variable) && Reached(m1, base, reach, |slots|)
  {
  }

  lemma SameClosed(m: Memory, m1: Memory, variable: map<Ref, Var>, store: map<Var, Value>, home: map<Var, nat>,
      holder: map<Var, Ref>, lim: nat)
    requires ClosedMean(m, variable, store, home, holder, lim)
    requires forall r :: r in m1 && m1[r].v.Own? ==>
      r in m && m[r].v.Own? && m1[r].value == m[r].value && m1[r].refcount > 0
    ensures ClosedMean(m1, variable, store, home, holder, lim)
  {
  }

  lemma OneClosed(m: Memory, r: Ref, v: Value, variable: map<Ref, Var>, store: map<Var, Value>, home: map<Var, nat>,
      holder: map<Var, Ref>, k: nat)
    requires ClosedMean(m, variable, store, home, holder, k + 1) && r in m && m[r].v.Slot? && m[r].refcount > 0
    requires r in variable && variable[r] in store && store[variable[r]] == v && variable[r] in home
    requires home[variable[r]] == k
    ensures ClosedMean(m[r := UpVal(Own, m[r].refcount, Null, v)], variable, store, home, holder[variable[r] := r], k)
  {
  }

  lemma SameCounts(m: Memory, m1: Memory, variable: map<Ref, Var>, handles: seq<Ref>, held: seq<Var>)
    requires Counted(m, variable, handles, held) && m1.Keys == m.Keys
    requires forall r :: r in m ==> m1[r].refcount == m[r].refcount
    ensures Counted(m1, variable, handles, held)
  {
  }

  lemma FreedCount(m: Memory, variable: map<Ref, Var>, handles: seq<Ref>, held: seq<Var>, r: Ref)
    requires Counted(m, variable, handles, held) && r in m && m[r].refcount == 0
    ensures Counted(m - {r}, variable, handles, held)
  {
    forall h | 0 <= h < |handles| ensures handles[h] != r {
      assert handles[h] in multiset(handles);
    }
  }

  lemma CountMore(m: Memory, variable: map<Ref, Var>, handles: seq<Ref>, held: seq<Var>, r: Ref)
    requires Counted(m, variable, handles, held) && r in m && r in variable
    ensures Counted(m[r := m[r].(refcount := m[r].refcount + 1)], variable, handles + [r], held + [variable[r]])
  {
  }

  lemma CountLess(m: Memory, variable: map<Ref, Var>, handles: seq<Ref>, held: seq<Var>, h: nat)
    requires Counted(m, variable, handles, held) && h < |handles|
    ensures handles[h] in m && m[handles[h]].refcount > 0
    ensures Counted(Uncounted(m, handles[h]), variable, handles[..h] + handles[h + 1..], held[..h] + held[h + 1..])
  {
    var r, hs := handles[h], handles[..h] + handles[h + 1..];
    Without(handles, h);
    assert handles[h] in multiset(handles);
    var m1 := Uncounted(m, r);
    forall i | 0 <= i < |hs| ensures hs[i] in m1 && hs[i] == handles[if i < h then i else i + 1] {
      assert hs[i] in multiset(hs);
    }
  }

  lemma Without(l: seq<Ref>, h: nat)
    requires h < |l|
    ensures multiset(l[..h] + l[h + 1..]) == multiset(l) - multiset{l[h]}
  {
    assert l == l[..h] + [l[h]] + l[h + 1..];
  }

  function At(l: seq<Ref>, i: int): Link {
    if 0 <= i < |l| then To(l[i]) else Null
  }

  ghost function Inserted(m: Memory, l: seq<Ref>, i: nat, level: int, at: Ref): Memory
    requires i <= |l|
  {
    (if 0 < i && l[i - 1] in m then m[l[i - 1] := m[l[i - 1]].(next := To(at))]
      else m)[at := UpVal(Slot(level), 0, At(l, i), Nil)]
  }

  lemma InsertedSame(m: Memory, l: seq<Ref>, i: nat, level: int, at: Ref)
    requires at !in m && i <= |l|
    ensures var m1 := Inserted(m, l, i, level, at);
      && m1.Keys == m.Keys + {at} && m1[at] == UpVal(Slot(level), 0, At(l, i), Nil)
      && forall r :: r in m ==> m1[r] == m[r].(next := m1[r].next)
  {
  }

  lemma Apart(m: Memory, l: seq<Ref>, base: int, n: nat)
    requires Descending(m, l, base, n)
    ensures forall i, j :: 0 <= i < j < |l| ==> l[i] != l[j]
  {
    forall i, j | 0 <= i < j < |l| ensures l[i] != l[j] {
      assert Level(m, l, j) < Level(m, l, i);
    }
  }

  /** Linking in a new upvalue keeps the list strictly descending. */
  lemma LinkNew(m: Memory, head: Link, l: seq<Ref>, base: int, n: nat, i: nat, level: int, at: Ref)
    requires Listed(m, head, l) && Descending(m, l, base, n) && at !in m && i <= |l| && base <= level < base + n
    requires (i > 0 ==> level < Level(m, l, i - 1)) && (i < |l| ==> Level(m, l, i) < level)
    ensures var m1, l1 := Inserted(m, l, i, level, at), l[..i] + [at] + l[i..];
      Listed(m1, if i == 0 then To(at) else head, l1) && Descending(m1, l1, base, n)
  {
    Apart(m, l, base, n);
    LinkListed(m, head, l, i, level, at);
    LinkDescending(m, head, l, base, n, i, level, at);
  }

  lemma LinkListed(m: Memory, head: Link, l: seq<Ref>, i: nat, level: int, at: Ref)
    requires Listed(m, head, l) && at !in m && i <= |l| && forall x, y :: 0 <= x < y < |l| ==> l[x] != l[y]
    ensures Listed(Inserted(m, l, i, level, at), if i == 0 then To(at) else head, l[..i] + [at] + l[i..])
  {
    var m1, l1 := Inserted(m, l, i, level, at), l[..i] + [at] + l[i..];
    forall k | 0 <= k < |l1| ensures l1[k] in m1 && NextIs(m1, l1, k) {
      LinkOne(m, head, l, i, level, at, k);
    }
    assert l == l[..i] + l[i..];
  }

  lemma LinkOne(m: Memory, head: Link, l: seq<Ref>, i: nat, level: int, at: Ref, k: nat)
    requires Listed(m, head, l) && at !in m && i <= |l| && (forall x, y :: 0 <= x < y < |l| ==> l[x] != l[y])
    requires k <= |l|
    ensures var m1, l1 := Inserted(m, l, i, level, at), l[..i] + [at] + l[i..];
      l1[k] in m1 && NextIs(m1, l1, k)
  {
    var l1 := l[..i] + [at] + l[i..];
    if k < i {
      assert l1[k] == l[k] && NextIs(m, l, k) && l[k] in m;
    } else if k > i {
      assert l1[k] == l[k - 1] && NextIs(m, l, k - 1) && l[k - 1] in m;
    }
  }

  lemma LinkDescending(m: Memory, head: Link, l: seq<Ref>, base: int, n: nat, i: nat, level: int, at: Ref)
    requires Listed(m, head, l) && Descending(m, l, base, n) && at !in m && i <= |l| && base <= level < base + n
    requires (i > 0 ==> level < Level(m, l, i - 1)) && (i < |l| ==> Level(m, l, i) < level)
    ensures Descending(Inserted(m, l, i, level, at), l[..i] + [at] + l[i..], base, n)
  {
    var m1, l1 := Inserted(m, l, i, level, at), l[..i] + [at] + l[i..];
    forall k: int {:trigger Level(m1, l1, k)} | 0 <= k < |l1|
      ensures Level(m1, l1, k) == (if k < i then Level(m, l, k) else if k == i then level else Level(m, l, k - 1))
      ensures base <= Level(m1, l1, k) < base + n
    {
      if k < i {
        assert l[k] in m && l1[k] == l[k];
      } else if k > i {
        assert l[k - 1] in m && l1[k] == l[k - 1];
      }
    }
    forall j, k | 0 <= j < k < |l1| ensures Level(m1, l1, k) < Level(m1, l1, j) {
      var j0, k0 := if j < i then j else j - 1, if k <= i then k else k - 1;
      assert j != i && k != i ==> Level(m, l, k0) < Level(m, l, j0);
      assert j < i ==> Level(m, l, i - 1) <= Level(m, l, j);
      assert k > i ==> Level(m, l, k - 1) <= Level(m, l, i);
    }
  }

  /** What the upvalues mean when there is a new one. */
  lemma OneMore(m: Memory, m1: Memory, base: int, slots: seq<Var>, variable: map<Ref, Var>, at: Ref, store: map<Var,
      Value>, home: map<Var, nat>,
      holder: map<Var, Ref>, handles: seq<Ref>, held: seq<Var>, reach: nat, level: int)
    requires OpenMean(m, base, slots, variable) && ClosedMean(m, variable, store, home, holder, |slots|)
    requires Counted(m, variable, handles, held) && Reached(m, base, reach, |slots|) && at !in m
    requires 0 <= level - base < |slots|
    requires m1.Keys == m.Keys + {at} && m1[at].v == Slot(level) && m1[at].refcount == 0
    requires forall r :: r in m ==> m1[r] == m[r].(next := m1[r].next)
    ensures var v1 := variable[at := slots[level - base]];
      && OpenMean(m1, base, slots, v1) && ClosedMean(m1, v1, store, home, holder, |slots|)
      && Counted(m1, v1, handles, held) && Reached(m1, base, Above(reach, level - base), |slots|)
  {
  }

  /** A change of the count does not change the list. */
  lemma SameList(m: Memory, head: Link, l: seq<Ref>, base: int, n: nat, r: Ref, uv: UpVal)
    requires Listed(m, head, l) && Descending(m, l, base, n) && r in m && uv.v == m[r].v && uv.next == m[r].next
    ensures Listed(m[r := uv], head, l) && Descending(m[r := uv], l, base, n)
  {
    var m1 := m[r := uv];
    SameLevels(m, m1, l, base, n);
    forall i | 0 <= i < |l| ensures NextIs(m1, l, i) {
      assert NextIs(m, l, i);
    }
  }

  lemma SameLevels(m: Memory, m1: Memory, l: seq<Ref>, base: int, n: nat)
    requires Descending(m, l, base, n)
    requires forall i :: 0 <= i < |l| ==> l[i] in m && l[i] in m1 && m1[l[i]].v == m[l[i]].v
    ensures Descending(m1, l, base, n)
  {
    forall i | 0 <= i < |l| ensures Level(m1, l, i) == Level(m, l, i) {
      assert l[i] in m;
    }
  }

  lemma FreeClosed(m: Memory, head: Link, l: seq<Ref>, base: int, n: nat, r: Ref)
    requires Listed(m, head, l) && Descending(m, l, base, n) && r in m && m[r].v.Own?
    ensures Listed(m - {r}, head, l) && Descending(m - {r}, l, base, n)
  {
    forall i | 0 <= i < |l| ensures NextIs(m - {r}, l, i) && l[i] in m - {r} {
      assert NextIs(m, l, i) && l[i] in m && m[l[i]].v.Slot?;
    }
    SameLevels(m, m - {r}, l, base, n);
  }

  /** The list without its first upvalue, which is closed or freed. */
  lemma Unlinked(m: Memory, m1: Memory, l: seq<Ref>, base: int, n: nat)
    requires l != [] && Listed(m, To(l[0]), l) && Descending(m, l, base, n)
    requires (forall r :: r in m1 ==> r in m)
    requires (forall r :: r in m && r != l[0] ==> r in m1 && m1[r] == m[r])
    requires (l[0] in m1 ==> m1[l[0]].v.Own?)
    ensures Listed(m1, m[l[0]].next, l[1..]) && Descending(m1, l[1..], base, n)
    ensures |l| > 1 ==> Level(m1, l[1..], 0) < Level(m, l, 0)
  {
    Apart(m, l, base, n);
    assert NextIs(m, l, 0);
    var l1 := l[1..];
    forall i | 0 <= i < |l1| ensures l1[i] in m1 && NextIs(m1, l1, i) {
      assert l1[i] == l[i + 1] && NextIs(m, l, i + 1) && l[i + 1] in m;
    }
    forall r | r in m1 ensures r in l1 <==> m1[r].v.Slot? {
      assert l == [l[0]] + l1;
    }
    forall i: int | 0 <= i < |l1| ensures Level(m1, l1, i) == Level(m, l, i + 1) {
      assert l[i + 1] in m;
    }
  }

  lemma AllBelow(m: Memory, head: Link, l: seq<Ref>, base: int, n: nat, level: nat)
    requires Listed(m, head, l) && Descending(m, l, base, n) && (l != [] ==> Level(m, l, 0) < base + level)
    ensures forall r :: r in m && m[r].v.Slot? ==> m[r].v.addr < base + level
  {
    forall r | r in m && m[r].v.Slot? ensures m[r].v.addr < base + level {
      var i :| 0 <= i < |l| && l[i] == r;
      assert Level(m, l, i) <= Level(m, l, 0);
    }
  }

  lemma SlotWritten(stack: seq<Value>, slots: seq<Var>, store: map<Var, Value>, home: map<Var, nat>, unused: Var,
      i: nat, v: Value)
    requires SlotsMean(stack, slots, store, home) && Bounded(store, home, |slots|, unused) && i < |slots|
    ensures SlotsMean(stack[i := v], slots, store[slots[i] := v], home)
    ensures Bounded(store[slots[i] := v], home, |slots|, unused)
  {
  }

  lemma ClosedKept(m: Memory, variable: map<Ref, Var>, store: map<Var, Value>, home: map<Var, nat>, holder: map<Var,
      Ref>, x: Var, v: Value, n: nat)
    requires ClosedMean(m, variable, store, home, holder, n) && x in home && home[x] < n
    ensures ClosedMean(m, variable, store[x := v], home, holder, n)
  {
  }

  lemma ClosedWritten(m: Memory, variable: map<Ref, Var>, store: map<Var, Value>, home: map<Var, nat>,
      holder: map<Var, Ref>, r: Ref, v: Value, n: nat)
    requires ClosedMean(m, variable, store, home, holder, n) && r in m && m[r].v.Own?
    ensures ClosedMean(m[r := m[r].(value := v)], variable, store[variable[r] := v], home, holder, n)
  {
  }

  lemma OtherSlots(stack: seq<Value>, slots: seq<Var>, store: map<Var, Value>, home: map<Var, nat>, x: Var, v: Value)
    requires SlotsMean(stack, slots, store, home) && (x in home ==> home[x] >= |slots|)
    ensures SlotsMean(stack, slots, store[x := v], home)
  {
  }

  function Above(reach: nat, i: nat): nat {
    if reach <= i then i + 1 else reach
  }
}
