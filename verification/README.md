# Proofs about Lua 5.3.1, lua-cjson and lua-redis-parser

This project models the stateful cores of the repository in Dafny and proves what they are for. The classes and
methods follow the C code: the same branches, the same in-place updates, the same error conditions and constants. Each
is proved against an independent description of what it should do.

- **Garbage collector** (`GcHeap`, `GcColor`, `GcClear`, `GcSweep`, `GcMutator`, `Collector`, `AtomicEntry`; lgc.c).
  The incremental tri-colour collector with strong and weak tables and ephemerons runs as a state machine, interleaved
  with a program that reads and writes through barriers. No reachable object is ever freed, whatever the interleaving,
  and a full collection leaves exactly what is reachable, with exactly the dead weak entries cleared.
- **Tables** (`TableChains`, `TableSizes`, `TableEntries`, `LuaTable`; ltable.c). The array part and the chained
  scatter hash part with Brent's variation behave as one finite map under any run of stores, resizes and key deaths;
  traversal with clearing sees every entry once; `#t` is a border.
- **Code generator** (`Bytecode`, `CodeExpr`, `CodeSteps`, `CodeValues`, `CodeRegisters`, `CodeLists`, `CodeGen`;
  lcode.c). Expressions with `and`, `or`, `not` and comparisons are translated through lists of pending jumps that are
  threaded through the code; running the code gives the value of the expression, however it is left.
- **Pattern matching** (`PatternItems`, `PatternRelation`, `PatternMatch`, `PatternFind`, `PatternText`; lstrlib.c).
  The backtracking matcher finds the first match in the order of preference of a relational semantics, or fails exactly
  when there is none; `find` and `gsub` are built on it. `PatternText` gives patterns as trees with their texts and says
  what the text of every tree matches.
- **Decimal conversion** (`BigLimbs`, `Bigint`, `BigOps`, `BigPowers`, `DigitGen`, `DigitScaling`, `Dtoa`; dtoa.c).
  Big integers in 32-bit limbs are exact, and the digits that are generated from a mantissa and a binary exponent are
  the closest of the shortest ones, or correctly rounded.
- **Upvalues and stack** (`Upvalues`; lfunc.c, ldo.c), **scopes** (`Scopes`; lparser.c), **string table**
  (`StringTable`; lstring.c) and **sorting** (`TableSort`; ltablib.c).
- **Packing** (`Pack`, `PackFormat`; lstrlib.c), **JSON** (`Json`, `JsonGrammar`; lua_cjson.c) and the **Redis
  protocol** (`Resp`, `RespGrammar`; redis-parser.c). What is written is read back, and for each of the three a second
  description, by trees with their texts and values, says what every format, JSON text and reply means.

`Wrappers`, `Sequences`, `Decimals` and `Powers` hold what several modules share. `dafny verify dfyconfig.toml` checks
everything.

Where the code and its comments disagree, or an edge is surprising, the model follows the code:

- The assertion at the start of `atomic` that the lists of weak and ephemeron tables are empty (lgc.c) can fail: a
  forward barrier after the last propagation step can leave a weak table gray, and propagation in the state GCSatomic
  links it there. `AtomicEntry.AtomicFindsWeak` is such a run; `Collector.GlobalState.EmptyGray` says that the lists
  are empty if nothing is gray before the step, and that every gray table with a value that can no longer be marked is
  in one of them. What the step keeps and clears is right in either case (`Collector.GlobalState.Atomic`).
- `luaH_next` with a float key that equals an index of the array part is refused, since `findindex` does not normalise
  its key (`LuaTable.Table.FindIndex`).
- `nospecials` does not count `)` as special, so the plain-text shortcut of `string.find` finds a lone `)`, which the
  matcher refuses; the two agree exactly for patterns without one (`PatternFind.ShortcutRight`).
- `quorem` leaves a number without limbs when the remainder is zero and the divisor has one limb; `cmp` then says
  "less" even against zero (`BigOps.Loose`).
- An empty Lua table is written as the JSON object `{}`; nil and holes are written as `null`; number keys of an object
  come back as strings. `Json.Faithful` is the exact condition for a value to come back.
- The JSON decoder takes a zero byte for the end of the text and ignores what follows it (`JsonGrammar.Derives`).
- A size or count without digits is zero to the Redis parser (`RespGrammar.Amount`).

## Model

| member | source | states |
|---|---|---|
| `Collector.GlobalState.Run` | lua53/lua-5.3.1/src/lgc.c:1043-1171 | Any sequence of program operations (allocation, reads, writes with their barriers, interning, fixing) and collector steps keeps the invariant; every object that can be reached from the roots is still allocated |
| `Collector.GlobalState.FullGC` | lua53/lua-5.3.1/src/lgc.c:1155-1171 | From any state between operations, what is left is exactly the least set the roots keep alive (ephemeron values only through their keys) and the fixed strings, and each weak table has lost exactly the entries about objects that are gone |
| `Collector.GlobalState.Step` | lua53/lua-5.3.1/src/lgc.c:1125-1143 | A step frees no live object and leaves objects in use unchanged, but for weak tables, which lose exactly their dead entries; it goes on with the cycle: from the pause to propagation, and from every other state down a measure (state, unmarked objects, work to do), and makes nothing live |
| `Collector.GlobalState.CollectBySteps` | lua53/lua-5.3.1/src/lgc.c:1126-1148 | From any state between operations, steps alone, without any program operation, come to a pause where every object that was not live at the start and is no fixed string is freed |
| `Collector.GlobalState.SingleStep` | lua53/lua-5.3.1/src/lgc.c:1043-1096 | Each step of each state keeps the invariant and decreases a measure of the cycle; only the atomic step makes objects dead, and what it leaves alive is closed, within the given bound, and purged of dead weak entries |
| `Collector.GlobalState.Perform` | lua53/lua-5.3.1/src/lgc.c:150-211 | Every operation of the program does to the objects, the registers, the metatables and the cells what it is for, and nothing else; every operation and collector step keeps the invariant that no black object refers to a white one (while marking) and nothing in use refers to a freed object |
| `Collector.GlobalState.Safe` | lua53/lua-5.3.1/src/lgc.c:134-171 | In every state of a run whatever the program can reach is allocated and does not have the dead white |
| `Collector.GlobalState.Atomic` | lua53/lua-5.3.1/src/lgc.c:980-1024 | After the atomic step the marked objects are a set closed under strong and ephemeron references that contains the roots, lies within any bound closed in the same way, and each weak table holds exactly its entries that are not about unmarked objects |
| `Collector.GlobalState.AtomicMark` | lua53/lua-5.3.1/src/lgc.c:984-1001 | All strongly accessible objects are marked, and no ephemeron table has a marked key with an unmarked value |
| `Collector.GlobalState.AtomicClearValues` | lua53/lua-5.3.1/src/lgc.c:1002-1005 | Tables with weak values lose exactly the entries with unmarked values, and strings that are left are marked |
| `Collector.GlobalState.AtomicClearKeys` | lua53/lua-5.3.1/src/lgc.c:1010-1019 | Tables with weak keys lose exactly the entries with unmarked keys, and values of tables linked meanwhile are cleared; the heap is the purged one |
| `Collector.GlobalState.ConvergeEphemerons` | lua53/lua-5.3.1/src/lgc.c:602-617 | At the end no ephemeron table has a marked key with an unmarked value; if that was so before, nothing is marked |
| `Collector.GlobalState.ReallyMarkObject` | lua53/lua-5.3.1/src/lgc.c:230-278 | A white object and what is marked with it change colour as their kinds demand and are linked into the gray list; userdata are followed to their metatable and user value; nothing outside a closed set is marked |
| `Collector.GlobalState.TraverseWeakValue` | lua53/lua-5.3.1/src/lgc.c:356-376 | Marks the keys of a table with weak values and links the table where the atomic step will find it, if it may have values to clear |
| `Collector.GlobalState.TraverseEphemeron` | lua53/lua-5.3.1/src/lgc.c:389-425 | Marks values whose keys are marked, says whether it marked any, and links the table in the list for what is left to do: to be visited again, to converge, to be cleared, or none |
| `Collector.GlobalState.TraverseStrongTable` | lua53/lua-5.3.1/src/lgc.c:428-443 | Marks everything a strong table refers to |
| `Collector.GlobalState.TraverseTable` | lua53/lua-5.3.1/src/lgc.c:446-466 | The traversal that the weak mode of the table calls for; the colour invariant holds again, with weak tables gray |
| `Collector.GlobalState.PropagateMark` | lua53/lua-5.3.1/src/lgc.c:553-594 | Traverses the first gray object: the colour invariant holds afterwards, and marked objects or gray objects get fewer |
| `Collector.GlobalState.PropagateAll` | lua53/lua-5.3.1/src/lgc.c:597-599 | Propagates until the gray list is empty, with the colour invariant kept; past the propagation phase only threads are added to `grayagain` |
| `Collector.GlobalState.IsCleared` | lua53/lua-5.3.1/src/lgc.c:134-141 | Whether an entry of a weak table is about an unmarked object; strings are values and are marked instead |
| `Collector.GlobalState.ClearKeys` | lua53/lua-5.3.1/src/lgc.c:633-644 | Exactly the entries with unmarked keys go from the tables of a list, and the string keys that stay are marked |
| `Collector.GlobalState.ClearValues` | lua53/lua-5.3.1/src/lgc.c:651-668 | Exactly the entries with unmarked values go from the tables of a list, and the string values that stay are marked |
| `Collector.GlobalState.MarkRoots` | lua53/lua-5.3.1/src/lgc.c:332-339 | The main thread, the registry and the metatables of the basic types are marked |
| `Collector.GlobalState.RestartCollection` | lua53/lua-5.3.1/src/lgc.c:332-339 | A new cycle begins with the roots marked, the colour invariant established, and the marked set within its bound |
| `Collector.GlobalState.EmptyGray` | lua53/lua-5.3.1/src/lgc.c:1060-1064 | Up to the call of `atomic`: the lists of weak tables and ephemerons are empty, as `atomic` asserts, if no object was gray before the step; every gray weak table with a value that can no longer be marked is in one of them |
| `AtomicEntry.AtomicFindsWeak` | lua53/lua-5.3.1/src/lgc.c:980-985 | A run of the program and the collector after which `atomic` is called with a table in a list that it asserts to be empty |
| `AtomicEntry.TableStored` | lua53/lua-5.3.1/src/lgc.c:150-160 | In that run a forward barrier makes a new weak table gray when the propagation is over |
| `Collector.GlobalState.SweepList` | lua53/lua-5.3.1/src/lgc.c:728-745 | Of the next objects of the list exactly the dead ones are freed and unlinked, the others are made white in the current shade, and the rest of the list is untouched |
| `Collector.GlobalState.SweepToLive` | lua53/lua-5.3.1/src/lgc.c:751-760 | Sweeps until the sweep pointer is inside the list or the list is finished; nothing in use changes |
| `Collector.GlobalState.FinishCycle` | lua53/lua-5.3.1/src/lgc.c:1103-1107 | From any state that marks nothing more, the cycle ends with exactly the objects in use left, unchanged |
| `Collector.GlobalState.RunCycle` | lua53/lua-5.3.1/src/lgc.c:1164-1166 | A cycle from its start to the call of finalizers collects down to a closed set that contains the roots, within the given bound |
| `Collector.GlobalState.Barrier` | lua53/lua-5.3.1/src/lgc.c:150-159 | After a write into an object that is no table entry, the invariant holds again: by marking the value while marking, by whitening the object while sweeping, or with nothing to do |
| `Collector.GlobalState.TableBarrier` | lua53/lua-5.3.1/src/lgc.c:166-171 | A black table that was written to becomes gray and is to be visited again; the invariant holds and nothing else changes |
| `Collector.GlobalState.UpvalueBarrier` | lua53/lua-5.3.1/src/lgc.c:180-186 | The value of a closed upvalue is marked while the invariant is to be kept, which is right for all closures that share it |
| `Collector.GlobalState.NewObject` | lua53/lua-5.3.1/src/lgc.c:203-211 | A new white object that refers to what the program holds is linked at the head of the list, and the invariant holds |
| `Collector.GlobalState.Fix` | lua53/lua-5.3.1/src/lgc.c:189-196 | The newest object, a string, becomes gray and moves to the list of objects that are never collected |
| `Collector.GlobalState.InternHit` | lua53/lua-5.3.1/src/lstring.c:151-175 | A string found in the string table that is dead gets the current white; the invariant holds |
| `Collector.GlobalState.Store` | lua53/lua-5.3.1/src/lapi.c:774-802 | Writing a slot of an object keeps the invariant by the barrier of its kind, and changes that slot only; while marking, a value written into a black object is marked or the table is gray again, and for an object that is not black no colour changes |
| `Collector.GlobalState.SetUpvalue` | lua53/lua-5.3.1/src/lgc.c:180-186 | Assigning a closed upvalue keeps the invariant for all closures that share it |
| `GcSweep.ReachableAlive` | lua53/lua-5.3.1/src/lgc.c:150-186 | If nothing in use refers to what is not, and the roots are in use, then all that is reachable is in use and allocated; `Safe` supplies the premises in every state of a run |
| `GcSweep.LiveReachable` | lua53/lua-5.3.1/src/lgc.c:602-617 | What the least closed set of the collector holds can be reached from the roots |
| `GcSweep.CollectedExactly` | lua53/lua-5.3.1/src/lgc.c:1155-1171 | The step at the end of `FullGC`: if a cycle collected down to a closed set within the live objects and the fixed strings, and sweeping before and after changed no survivor, then the heap is exactly that set, purged |
| `GcSweep.PurgeBase` | lua53/lua-5.3.1/src/lgc.c:1021-1023 | Once the whites are exchanged exactly the marked objects are in use, and nothing in use refers to anything else |
| `GcSweep.SweptNoDangling` | lua53/lua-5.3.1/src/lgc.c:728-745 | Freeing the dead objects of a part of the list leaves no reference to them from objects in use |
| `GcSweep.LiveRestrict` | lua53/lua-5.3.1/src/lgc.c:728-760 | Freeing objects that are not live does not change what is live |
| `GcClear.KeysDone` | lua53/lua-5.3.1/src/lgc.c:1015-1019 | From the state after the passes over values, the passes over keys and the tables linked meanwhile end in the purged heap |
| `GcMutator.WriteForward` | lua53/lua-5.3.1/src/lgc.c:150-159 | Marking the value restores the invariant for the written black object |
| `GcMutator.WriteBack` | lua53/lua-5.3.1/src/lgc.c:166-171 | Linking the written black table into the list of objects to visit again restores the invariant |
| `GcMutator.CellMarked` | lua53/lua-5.3.1/src/lgc.c:180-186 | Marking the new value restores the invariant for every closure that shares the cell |
| `GcMutator.PokePeek` | lua53/lua-5.3.1/src/lapi.c:774-802 | What was written to a slot is read from it, and every other slot of the object holds what it held |
| `GcMutator.EntryPeek` | lua53/lua-5.3.1/src/lapi.c:774-802 | A new entry of a table holds its key and its value, and every old slot what it held |
| `GcMutator.Resurrect` | lua53/lua-5.3.1/src/lstring.c:160-165 | Giving a dead string the current white leaves nothing dangling, as a string refers to nothing |
| `LuaTable.Table.Run` | lua53/lua-5.3.1/src/ltable.c:447-582 | After any run of stores, dead keys and growths of the array part, looking up any key gives the last value stored under the key it is kept as; a float that equals an integer is kept as that integer, every other key as itself |
| `LuaTable.Table.RawGet` | lua53/lua-5.3.1/src/ltable.c:545-570 | A lookup gives the value kept for the key: for a float that equals an integer the one of that integer, for any other key its own; or nil |
| `LuaTable.Table.FindNode` | lua53/lua-5.3.1/src/ltable.c:502-570 | Walking the chain from the main position finds the node of a key exactly if there is one that is not dead |
| `LuaTable.Table.Put` | lua53/lua-5.3.1/src/ltable.c:577-582 | A store changes the value of the key that the given one is kept as, and no other; nil and NaN keys are refused and change nothing |
| `TableEntries.StoredOnce` | lua53/lua-5.3.1/src/ltable.c:447-467 | Each key is kept as exactly one key, the one the conversion to an integer finds |
| `LuaTable.FloatKey` | lua53/lua-5.3.1/src/ltable.c:453-454 | The float of an integer is kept as that integer and as nothing else |
| `LuaTable.OtherKey` | lua53/lua-5.3.1/src/ltable.c:447-467 | A float that is no integer in range, an infinity, and a key of any other kind are kept as themselves, apart from all others |
| `LuaTable.Table.NewKey` | lua53/lua-5.3.1/src/ltable.c:447-496 | A missing key gets a cell, in a free node, in the place of a colliding node that is moved, or after a rehash, with all other entries kept; never more than one rehash |
| `LuaTable.Table.GetFreePos` | lua53/lua-5.3.1/src/ltable.c:429-436 | The highest free node below the pointer, or none exactly when all nodes were used |
| `LuaTable.Table.MoveColliding` | lua53/lua-5.3.1/src/ltable.c:471-482 | A node out of its main position moves to the free node, its chain is relinked around it, and the new key gets its place |
| `LuaTable.Table.ChainAfter` | lua53/lua-5.3.1/src/ltable.c:483-492 | The new key goes to the free node, linked after the node in its main position |
| `LuaTable.Table.Assign` | lua53/lua-5.3.1/src/ltable.c:577-596 | Writing a cell updates the contents at its key and leaves all other slots and nodes |
| `LuaTable.Table.KillKey` | lua53/lua-5.3.1/src/lgc.c:120-124 | Marking the key of an empty entry as dead changes no lookup |
| `LuaTable.Table.NumUseArray` | lua53/lua-5.3.1/src/ltable.c:264-287 | Counts exactly the used keys of the array part in each slice between powers of two |
| `LuaTable.Table.NumUseHash` | lua53/lua-5.3.1/src/ltable.c:290-303 | Counts the used entries of the hash part, and its candidate array indices in each slice |
| `LuaTable.Table.Rehash` | lua53/lua-5.3.1/src/ltable.c:383-400 | The sizes are chosen for all keys and the new one, the contents stay, and the new key has room |
| `LuaTable.Table.Resize` | lua53/lua-5.3.1/src/ltable.c:340-372 | All entries are still there after both parts are rebuilt, and the free nodes are those not needed |
| `LuaTable.Table.ResizeArray` | lua53/lua-5.3.1/src/ltable.c:375-378 | Growing the array part keeps the contents |
| `LuaTable.Table.SetArrayVector` | lua53/lua-5.3.1/src/ltable.c:306-312 | The slots that fit are kept, the new ones are nil |
| `LuaTable.Table.GetN` | lua53/lua-5.3.1/src/ltable.c:627-643 | The result is a border: 0 or a key with a value, followed by a key without |
| `LuaTable.Table.UnboundSearch` | lua53/lua-5.3.1/src/ltable.c:599-620 | Doubling and bisection, or a linear search, find a border in the hash part |
| `LuaTable.Table.FindIndex` | lua53/lua-5.3.1/src/ltable.c:166-190 | The position a traversal goes on from; a key that is no index of the array part is found exactly if a node on the chain of its main position, dead or not, has an equal key; a float is looked up by its own hash, so it may miss an equal integer key, and always does in the array part |
| `LuaTable.Table.Next` | lua53/lua-5.3.1/src/ltable.c:193-210 | The first entry with a value after the one of the key, with nothing but empty entries in between; refused exactly if the key is no index of the array part and no node on the chain of its main position, dead or not, has an equal key |
| `LuaTable.Table.Traverse` | lua53/lua-5.3.1/src/ltable.c:193-210 | A traversal that may clear the entries it comes to visits every entry exactly once, and leaves those it did not clear |
| `TableSizes.ComputeSizes` | lua53/lua-5.3.1/src/ltable.c:226-245 | The largest power of two such that more than half of an array of that size is in use, or 0, and how many keys go there |
| `TableSizes.CeilLog2` | lua53/lua-5.3.1/src/lobject.c:67-82 | The slice of a number: the least power of two that is not below it |
| `TableChains.InsertMoving` | lua53/lua-5.3.1/src/ltable.c:471-482 | Moving the colliding node keeps every chain: each key comes no earlier than its main position |
| `TableChains.InsertAfter` | lua53/lua-5.3.1/src/ltable.c:483-490 | Linking the new key after its main position keeps every chain |
| `TableChains.InsertReuse` | lua53/lua-5.3.1/src/ltable.c:460-496 | A new key in the node of an empty entry keeps every chain |
| `TableChains.MatchInChain` | lua53/lua-5.3.1/src/ltable.c:545-570 | A node with a key is in the chain of its main position, not before it |
| `TableChains.FirstInMain` | lua53/lua-5.3.1/src/ltable.c:166-190 | A new key comes before all dead ones that equal it, so a traversal never finds a dead key for a live one |
| `TableEntries.KillNode` | lua53/lua-5.3.1/src/lgc.c:120-124 | The contents do not depend on dead keys of empty entries |
| `LuaTable.OneWay` | lua53/lua-5.3.1/src/ltable.c:193-210 | A traversal that came to an entry goes on after that entry and nowhere else |
| `CodeGen.Compile` | lua53/lua-5.3.1/src/lcode.c:520-525 | For every expression, environment and register contents, running the code from its start ends at its end with the value of the expression in the next register and the locals unchanged |
| `CodeGen.FuncState.GenExpr` | lua53/lua-5.3.1/src/lparser.c:1042-1069 | The descriptor left for an expression denotes its value wherever the code is entered, through both lists of pending jumps |
| `CodeGen.FuncState.Exp2Reg` | lua53/lua-5.3.1/src/lcode.c:496-517 | However the expression is left, by going on or by a jump of either list, the value is in the register; the lists are empty |
| `CodeGen.FuncState.Exp2NextReg` | lua53/lua-5.3.1/src/lcode.c:520-525 | The value comes to the next register, which is reserved |
| `CodeGen.FuncState.Exp2AnyReg` | lua53/lua-5.3.1/src/lcode.c:528-539 | The value is in some register, a local is used where it is |
| `CodeGen.FuncState.Exp2RK` | lua53/lua-5.3.1/src/lcode.c:556-589 | The operand denotes the value of the expression, as a register or a constant whose index fits |
| `CodeGen.FuncState.Exp2Val` | lua53/lua-5.3.1/src/lcode.c:548-553 | The value is there without pending jumps |
| `CodeGen.FuncState.DischargeVars` | lua53/lua-5.3.1/src/lcode.c:407-436 | A variable becomes a value, with the same meaning |
| `CodeGen.FuncState.Discharge2Reg` | lua53/lua-5.3.1/src/lcode.c:445-485 | The value of an expression other than a comparison is in the register, with the pending jumps as they were |
| `CodeGen.FuncState.GoIfTrue` | lua53/lua-5.3.1/src/lcode.c:655-676 | The code goes on exactly when the expression is true, and leaves through the false list with the value otherwise |
| `CodeGen.FuncState.GoIfFalse` | lua53/lua-5.3.1/src/lcode.c:679-699 | The code goes on exactly when the expression is false, and leaves through the true list with the value otherwise |
| `CodeGen.FuncState.JumpOnCond` | lua53/lua-5.3.1/src/lcode.c:640-652 | A test and a jump that leaves when the truth is not the one wanted; an OP_NOT that was just emitted is taken back |
| `CodeGen.FuncState.InvertJump` | lua53/lua-5.3.1/src/lcode.c:632-637 | The last comparison accepts the other outcome, and nothing else changes |
| `CodeGen.FuncState.CodeNot` | lua53/lua-5.3.1/src/lcode.c:702-734 | The descriptor denotes the negation, with the lists exchanged and the values that their jumps left removed |
| `CodeGen.FuncState.CodeComp` | lua53/lua-5.3.1/src/lcode.c:825-838 | The descriptor denotes the comparison of two operands |
| `CodeGen.FuncState.JoinLists` | lua53/lua-5.3.1/src/lcode.c:885-899 | The list of the first operand of `and` or `or` joins that of the second; the descriptor denotes the whole |
| `CodeGen.FuncState.StoreLocal` | lua53/lua-5.3.1/src/lcode.c:592-597 | The local gets the value of the expression, from wherever the code is entered |
| `CodeGen.FuncState.LoadNext` | lua53/lua-5.3.1/src/lparser.c:1439-1456 | The next register gets the value of the expression |
| `CodeGen.FuncState.GenCondition` | lua53/lua-5.3.1/src/lparser.c:1174-1181 | The code goes on when the condition is true, and leaves through the list when it is not |
| `CodeGen.FuncState.LoadNils` | lua53/lua-5.3.1/src/lcode.c:54-73 | The registers become nil by one instruction, merged with the one before only where no jump comes between |
| `CodeGen.FuncState.Emit` | lua53/lua-5.3.1/src/lcode.c:229-241 | The instruction comes at the end, after the jumps on hold were resolved to it |
| `CodeGen.FuncState.Jump` | lua53/lua-5.3.1/src/lcode.c:76-83 | A new jump whose list also holds the jumps that waited to come here |
| `CodeGen.FuncState.AddK` | lua53/lua-5.3.1/src/lcode.c:313-337 | A constant is found again or appended, and the others keep their places |
| `CodeLists.Proto.PatchListAux` | lua53/lua-5.3.1/src/lcode.c:167-177 | Every jump of a list goes to its target, the value target exactly for those whose test leaves a value, which is sent to the register |
| `CodeLists.Proto.PatchTestReg` | lua53/lua-5.3.1/src/lcode.c:148-158 | Whether the test of a jump leaves a value, sent to the register or no longer left; a local that is the register itself is not copied |
| `CodeLists.Proto.Concat` | lua53/lua-5.3.1/src/lcode.c:215-226 | Two lists threaded through the code become one |
| `CodeLists.Proto.NeedValue` | lua53/lua-5.3.1/src/lcode.c:139-145 | Whether some jump of the list does not leave a value |
| `CodeLists.Proto.RemoveValues` | lua53/lua-5.3.1/src/lcode.c:161-164 | No test of the list leaves a value any more, and the list stays the same |
| `Bytecode.PatchTest` | lua53/lua-5.3.1/src/lcode.c:148-158 | Running a test whose target was changed differs only in the register it writes when its jump is taken |
| `CodeSteps.SecondOut` | lua53/lua-5.3.1/src/lcode.c:885-899 | When the first operand of `and` or `or` does not decide, the value is that of the second |
| `CodeSteps.FirstOut` | lua53/lua-5.3.1/src/lcode.c:885-899 | When it decides, its jump carries its value |
| `CodeRegisters.PatchExpr` | lua53/lua-5.3.1/src/lcode.c:505-517 | Patching a list brings the values of its jumps to the register |
| `PatternMatch.MatchState.Match` | lua53/lua-5.3.1/src/lstrlib.c:421-520 | The result is the first match in the order of preference among all ways to match, with its captures, or that there is none, or the error that comes first; the captures are restored on failure; what that is for the text of any pattern says `PatternText.Means` |
| `PatternMatch.MatchState.MaxExpand` | lua53/lua-5.3.1/src/lstrlib.c:357-369 | Longer repetitions are tried before shorter ones: the first of the preferred order |
| `PatternMatch.MatchState.MinExpand` | lua53/lua-5.3.1/src/lstrlib.c:372-382 | Shorter repetitions are tried before longer ones |
| `PatternMatch.MatchState.StartCapture` | lua53/lua-5.3.1/src/lstrlib.c:385-396 | A capture is opened, and given back if the rest does not match |
| `PatternMatch.MatchState.EndCapture` | lua53/lua-5.3.1/src/lstrlib.c:399-407 | The innermost open capture is closed, and reopened if the rest does not match |
| `PatternMatch.MatchState.CaptureToClose` | lua53/lua-5.3.1/src/lstrlib.c:246-251 | The last capture that is still open |
| `PatternMatch.MatchState.MatchBalance` | lua53/lua-5.3.1/src/lstrlib.c:337-354 | The end of the balanced stretch, or that there is none |
| `PatternMatch.MatchState.MatchCapture` | lua53/lua-5.3.1/src/lstrlib.c:410-418 | Whether the text of a closed capture comes again |
| `PatternItems.MatchBracketClass` | lua53/lua-5.3.1/src/lstrlib.c:298-318 | Whether a character is in the set, with ranges, classes and complement |
| `PatternItems.ClassEnd` | lua53/lua-5.3.1/src/lstrlib.c:254-275 | Where a single-character item ends, or which error its pattern has |
| `PatternItems.SingleMatch` | lua53/lua-5.3.1/src/lstrlib.c:321-334 | Whether the item matches the character at a place |
| `PatternRelation.OneOutcome` | lua53/lua-5.3.1/src/lstrlib.c:421-520 | The choices made at the repetitions determine the match |
| `PatternRelation.Comparable` | lua53/lua-5.3.1/src/lstrlib.c:357-382 | Of two ways to match one is preferred |
| `PatternRelation.OneWayOnly` | lua53/lua-5.3.1/src/lstrlib.c:357-382 | The preference is irreflexive and asymmetric |
| `PatternRelation.OneFirst` | lua53/lua-5.3.1/src/lstrlib.c:421-520 | There is at most one preferred outcome, so the result of a match is determined by the relation |
| `PatternRelation.Forward` | lua53/lua-5.3.1/src/lstrlib.c:421-520 | A match ends within the subject and not before it starts |
| `PatternText.Means` | lua53/lua-5.3.1/src/lstrlib.c:421-520 | The text of any sequence of parts (bytes, sets and classes with their suffixes, captures, positions, balances, frontiers, back references, the end) is matched as the parts mean: `*` and `+` longest first, `-` shortest first, `?` one before none, captures as they were opened and closed |
| `PatternText.MatchWritten` | lua53/lua-5.3.1/src/lstrlib.c:421-520 | The matcher on that text gives exactly the outcome that the parts mean |
| `PatternText.OneByte` | lua53/lua-5.3.1/src/lstrlib.c:480-514 | With n the run of a byte c: `c*` ends after the run, `c+` too but only if n > 0, `c-` at once, `c?` after one byte if n > 0, `c` only if n > 0 |
| `PatternText.ClassesRight` | lua53/lua-5.3.1/src/lstrlib.c:278-295 | The bytes of each class letter; an upper-case letter stands for the complement, any other byte for itself |
| `PatternText.SetRead` | lua53/lua-5.3.1/src/lstrlib.c:298-318 | A set ends after its elements and holds the bytes of its ranges, escapes and single bytes |
| `PatternText.BracketRead` | lua53/lua-5.3.1/src/lstrlib.c:298-318 | With a caret it holds exactly the other bytes |
| `PatternFind.LMemFind` | lua53/lua-5.3.1/src/lstrlib.c:524-543 | The first occurrence of a string, or that there is none |
| `PatternFind.NoSpecials` | lua53/lua-5.3.1/src/lstrlib.c:576-584 | Whether a pattern, which may hold zero bytes, is without the characters of SPECIALS |
| `PatternFind.LiteralGoes` | lua53/lua-5.3.1/src/lstrlib.c:421-520 | A pattern without special characters and without `)` matches exactly its own text |
| `PatternFind.ShortcutRight` | lua53/lua-5.3.1/src/lstrlib.c:576-605 | For a pattern that `nospecials` accepts, the plain search finds what the matcher would on every subject if and only if the pattern has no `)` |
| `PatternFind.StrFindAux` | lua53/lua-5.3.1/src/lstrlib.c:587-636 | From the start position, the first place with an occurrence (plain search) or where the matcher has an answer, a match or an error, with the preferred match there; an anchored pattern is tried once |
| `PatternFind.SearchedOnce` | lua53/lua-5.3.1/src/lstrlib.c:576-640 | A search has one result: a match, an error or none, all earlier places having had no match |
| `PatternFind.GSub` | lua53/lua-5.3.1/src/lstrlib.c:747-789 | The subject is cut from left to right by asking the matcher at each place: a match is replaced, a byte without one or behind an empty match is kept, until the limit, the end, or the first place if anchored; the result is the rendered cut with the rest and the number of matches, or the error the matcher has at the place reached |
| `PatternFind.SubstitutedOnce` | lua53/lua-5.3.1/src/lstrlib.c:747-789 | Subject, pattern and limit determine the cut and the result |
| `PatternFind.SubstitutedFully` | lua53/lua-5.3.1/src/lstrlib.c:747-789 | Every replaced stretch is the preferred match at its place, every kept byte has no match or is behind an empty one, and only the limit or an anchor ends the cut before the end of the subject |
| `PatternFind.AnchoredOnce` | lua53/lua-5.3.1/src/lstrlib.c:752-784 | An anchored pattern replaces the match at the start if there is one, nothing if there is none, and fails exactly if the matcher does there |
| `PatternFind.SameText` | lua53/lua-5.3.1/src/lstrlib.c:747-789 | Replacing every match by its own text renders the subject back up to where the cut ends |
| `PatternFind.SubstitutedSame` | lua53/lua-5.3.1/src/lstrlib.c:747-789 | A substitution that replaces every match by its own text returns the subject |
| `Dtoa.DtoaShortest` | lua-cjson53/lua-cjson-master/dtoa.c:3844-4330 | For `f * 2^e`, a positive gap exponent (a double has none below one) and any estimate of the decimal exponent that is right or one too large: the exact decimal exponent, and digits of a number within the half gaps that no shorter one reaches and that is strictly nearer than every other of its length, or as near and even; with a limit of n digits (n decimals) no more digits than that, and otherwise the value rounded half-even to n digits (to a multiple of 10^-n) |
| `DigitScaling.ShortestBest` | lua-cjson53/lua-cjson-master/dtoa.c:4084-4283 | For the gaps a mantissa and a binary exponent give, what the digit loop ends with is the nearest of the shortest numbers, without the exceptions it has for arbitrary gaps |
| `DigitScaling.NoBoundary` | lua-cjson53/lua-cjson-master/dtoa.c:4084-4096 | Ten lies on the upper boundary of no such value whose first digit is nine, since ten times a power of ten would be an odd number of half gaps |
| `Dtoa.DtoaFixed` | lua-cjson53/lua-cjson-master/dtoa.c:3844-4330 | The digits of `f * 2^e`, with the point where it is put, are the value rounded half-even to n digits, or to a multiple of 10^-n, without trailing zeros, also when that is no digit |
| `DigitScaling.RoundedPlaces` | lua-cjson53/lua-cjson-master/dtoa.c:4285-4330 | Rounding to so many digits is rounding to a multiple of the last place, wherever the point is |
| `DigitScaling.RoundedAbove` | lua-cjson53/lua-cjson-master/dtoa.c:4169-4181 | With no place left the result, nothing or a one, is still the value rounded to a multiple of the place asked for |
| `Dtoa.Shortest` | lua-cjson53/lua-cjson-master/dtoa.c:4152-4283 | The same from the normalised divisor on, for any numbers and gaps, with the estimate corrected |
| `Dtoa.Fixed` | lua-cjson53/lua-cjson-master/dtoa.c:4152-4330 | The fixed-digit branch from the normalised divisor on, with the estimate corrected |
| `Dtoa.FewPlaces` | lua-cjson53/lua-cjson-master/dtoa.c:4169-4181 | With no place left the result is nothing or a one, as the value rounds half-even to the place above |
| `Dtoa.SetAll` | lua-cjson53/lua-cjson-master/dtoa.c:4084-4140 | The numbers b, S and the gap, set up from exponents with a common power of two taken out, stand in the exact ratio of the value and its half gap to 10^k |
| `DigitGen.ShortestDigits` | lua-cjson53/lua-cjson-master/dtoa.c:4196-4283 | The loop ends; no number with fewer digits is within the gaps, and the one emitted is within them and preferred to all others of its length: nearer, or as near and even (for arbitrary gaps there is an exception, ten on the boundary of a value of at least nine); or it is the value rounded at the limit |
| `DigitGen.FixedDigits` | lua-cjson53/lua-cjson-master/dtoa.c:4285-4330 | The digits are the value rounded half-even to `ilim` digits with trailing zeros dropped |
| `DigitGen.Decide` | lua-cjson53/lua-cjson-master/dtoa.c:4197-4276 | A digit is emitted only if it, or the next, is within its gap, the better one of the two being taken; the loop goes on exactly if neither is |
| `DigitGen.RoundOff` | lua-cjson53/lua-cjson-master/dtoa.c:4314-4321 | Adds one in the last place; nines become dropped zeros, and all nines a one with the point moved |
| `DigitGen.TrimZeros` | lua-cjson53/lua-cjson-master/dtoa.c:4323-4329 | Drops trailing zeros and nothing else |
| `DigitGen.NothingNear` | lua-cjson53/lua-cjson-master/dtoa.c:4197-4276 | When neither neighbour of the value is within its gap, no number of that length is |
| `DigitGen.NearestUnique` | lua-cjson53/lua-cjson-master/dtoa.c:4298-4330 | Half-even rounding is unique |
| `DigitScaling.ScaleResult` | lua-cjson53/lua-cjson-master/dtoa.c:4152-4168 | Shifting all numbers alike changes neither which digits are the shortest nor which is the closest |
| `BigOps.QuoRem` | lua-cjson53/lua-cjson-master/dtoa.c:2120-2241 | With a normalised divisor and a quotient below ten, exactly the quotient is returned and the remainder left |
| `BigOps.Estimate` | lua-cjson53/lua-cjson-master/dtoa.c:2143-2152 | The quotient of the top limb by the divisor's top limb plus one is the true quotient or one less |
| `BigOps.DShift` | lua-cjson53/lua-cjson-master/dtoa.c:2108-2117 | The shift after which the divisor has exactly four leading zero bits in its top limb |
| `BigOps.NormalTop` | lua-cjson53/lua-cjson-master/dtoa.c:4145-4159 | A divisor shifted like that is normalised |
| `BigOps.Cmp` | lua-cjson53/lua-cjson-master/dtoa.c:1035-1066 | The order of the numbers, for operands without the limbless zero |
| `BigOps.Diff` | lua-cjson53/lua-cjson-master/dtoa.c:1069-1160 | The absolute difference, with the sign set exactly if the first is smaller |
| `BigOps.Hi0Bits` | lua-cjson53/lua-cjson-master/dtoa.c:708-739 | The number of leading zero bits of a limb |
| `Bigints.MultAdd` | lua-cjson53/lua-cjson-master/dtoa.c:613-667 | The number becomes its product with a limb plus a limb, in place or in a larger block |
| `Bigints.Mult` | lua-cjson53/lua-cjson-master/dtoa.c:806-913 | The exact product |
| `Bigints.LShift` | lua-cjson53/lua-cjson-master/dtoa.c:975-1032 | The exact product with a power of two |
| `Bigints.I2B` | lua-cjson53/lua-cjson-master/dtoa.c:790-803 | The number of one limb |
| `BigPowers.PowerCache.Pow5Mult` | lua-cjson53/lua-cjson-master/dtoa.c:918-972 | The exact product with a power of five; the cache keeps holding 5^(4 * 2^i) at entry i, and grows only as needed |
| `Upvalues.LuaState.Run` | lua53/lua-5.3.1/src/lfunc.c:57-96 | Any run of slot and upvalue accesses, captures, releases, closings and stack growth does to the variables what it means, wherever the stack is moved |
| `Upvalues.LuaState.FindUpval` | lua53/lua-5.3.1/src/lfunc.c:57-80 | The open upvalue of a stack level, found or linked in, so that each level has one; no variable changes |
| `Upvalues.LuaState.Close` | lua53/lua-5.3.1/src/lfunc.c:83-96 | Every open upvalue from a level up keeps its value as a closed one, or is freed when no closure holds it; slots above become new variables |
| `Upvalues.LuaState.Release` | lua53/lua-5.3.1/src/lgc.c:671-676 | A closure that lets go of an upvalue frees it exactly if it is closed and nobody holds it |
| `Upvalues.LuaState.CorrectStack` | lua53/lua-5.3.1/src/ldo.c:153-165 | The top, all open upvalues and all call frames keep their distance from the base |
| `Upvalues.LuaState.ReallocStack` | lua53/lua-5.3.1/src/ldo.c:172-183 | Moving and resizing the stack changes no variable; new slots are nil |
| `Upvalues.LuaState.GrowStack` | lua53/lua-5.3.1/src/ldo.c:186-202 | There is room for n more values, or an overflow with the error size, or an error while handling one, exactly by size |
| `Upvalues.LuaState.GetUpval` | lua53/lua-5.3.1/src/lfunc.c:57-80 | Reading through the upvalue gives the value of the variable |
| `Upvalues.LuaState.GetSlot` | lua53/lua-5.3.1/src/lvm.c:766-769 | Reading a register gives the value of the variable, wherever the stack is |
| `Upvalues.LuaState.SetUpval` | lua53/lua-5.3.1/src/lfunc.c:57-80 | Writing through the upvalue writes the variable, in its slot while it is open |
| `Upvalues.SharedUntilClosed` | lua53/lua-5.3.1/src/lfunc.c:57-96 | A closure shares the variable of a slot through every run that does not close the slot |
| `Upvalues.ClosedApart` | lua53/lua-5.3.1/src/lfunc.c:83-96 | After closing, writes to the slot and through the closure do not see each other, and the value is kept |
| `Upvalues.LinkNew` | lua53/lua-5.3.1/src/lfunc.c:57-80 | Linking in a new upvalue keeps the list strictly descending by level |
| `Scopes.LexState.SingleVar` | lua53/lua-5.3.1/src/lparser.c:293-303 | A name becomes the register or upvalue that leads to its innermost visible declaration, or a field of the environment exactly if there is none; exactly a variable of an enclosing function is captured by that, and a use in the function that declares it changes nothing; it fails exactly if the name, or the environment for a global, needs a new upvalue in a function that has no room |
| `Scopes.LexState.SingleVarAux` | lua53/lua-5.3.1/src/lparser.c:267-290 | The search from one function outwards finds the innermost declaration, adds at most the upvalues that lead there, and captures exactly the variable it leads to, or nothing if that is in the function that uses it; it fails exactly if a function on the way, none from there inwards knowing the name, is full |
| `Scopes.LexState.SearchVar` | lua53/lua-5.3.1/src/lparser.c:242-249 | The last active declaration of the name |
| `Scopes.LexState.SearchUpvalue` | lua53/lua-5.3.1/src/lparser.c:217-224 | An upvalue that was made for the name, if there is one |
| `Scopes.LexState.NewUpvalue` | lua53/lua-5.3.1/src/lparser.c:227-239 | A descriptor that leads where the name means, unless there are too many |
| `Scopes.LexState.MarkUpval` | lua53/lua-5.3.1/src/lparser.c:256-260 | The block that declares the register is marked, and no other |
| `Scopes.LexState.NewLocalVar` | lua53/lua-5.3.1/src/lparser.c:174-183 | A declaration that is not visible yet: no name changes its meaning |
| `Scopes.LexState.LeaveBlock` | lua53/lua-5.3.1/src/lparser.c:468-488 | The variables of the block are gone, and code to close upvalues is asked for exactly if one of them was captured |
| `Scopes.LexState.CloseFunc` | lua53/lua-5.3.1/src/lparser.c:546-567 | The descriptors of the closed function lead, from the enclosing one, to what their names mean there |
| `Scopes.Parse` | lua53/lua-5.3.1/src/lparser.c:156-567 | After any run of declarations, blocks, functions and uses every upvalue leads to the innermost visible declaration of its name |
| `Scopes.ResolveAs` | lua53/lua-5.3.1/src/lparser.c:267-290 | What a name means depends on the visible declarations only |
| `StringTable.Table.Intern` | lua53/lua-5.3.1/src/lstring.c:151-175 | The one string with these contents, which is the new one exactly if there was none |
| `StringTable.Table.Resize` | lua53/lua-5.3.1/src/lstring.c:62-87 | Rehashing in place to any size keeps every string, each in the bucket of its hash modulo the size (the bit mask of `lmod` is that remainder for the powers of two the code uses) |
| `StringTable.Table.RehashBucket` | lua53/lua-5.3.1/src/lstring.c:70-80 | One bucket is emptied into the new buckets; strings not yet moved are where they were |
| `StringTable.Table.Remove` | lua53/lua-5.3.1/src/lstring.c:138-145 | Exactly that string leaves the table |
| `StringTable.EachOnce` | lua53/lua-5.3.1/src/lstring.c:62-87 | Every string is in its bucket once, and in no other |
| `StringTable.Perform` | lua53/lua-5.3.1/src/lstring.c:138-175 | Any operation does to the map from strings to contents what it means |
| `TableSort.AuxSort` | lua53/lua-5.3.1/src/ltablib.c:258-319 | For any pure order function only the elements of the range are permuted; for a strict weak order they are sorted without an error; the recursion is no deeper than the logarithm of the range |
| `TableSort.Partition` | lua53/lua-5.3.1/src/ltablib.c:283-308 | For a strict weak order the loops never leave the range, and the elements end up on the sides of the pivot |
| `TableSort.Median` | lua53/lua-5.3.1/src/ltablib.c:261-282 | First, middle and last element come in order |
| `TableSort.Sort` | lua53/lua-5.3.1/src/ltablib.c:321-330 | For any pure order function the table is a permutation of what it was, sorted if it is a strict weak order |
| `Pack.Inverse` | lua53/lua-5.3.1/src/lstrlib.c:1263-1467 | Unpacking what was packed by the same format gives back the arguments that the format uses, and ends at the end; the length is what `packsize` says |
| `Pack.RoundTrip` | lua53/lua-5.3.1/src/lstrlib.c:1263-1467 | The same from any place in the data and in the format, whatever follows |
| `Pack.ItemRoundTrip` | lua53/lua-5.3.1/src/lstrlib.c:1263-1467 | An integer, string or padding item comes back from where it was written |
| `Pack.IntRoundTrip` | lua53/lua-5.3.1/src/lstrlib.c:1228-1403 | Every integer that fits comes back from every size from 1 to 16 bytes, signed or not |
| `Pack.SizeRight` | lua53/lua-5.3.1/src/lstrlib.c:1347-1369 | For formats of fixed size the packed length is the announced one |
| `Pack.PackInt` | lua53/lua-5.3.1/src/lstrlib.c:1228-1242 | The bytes of an integer in the byte order asked for, with the sign repeated beyond eight bytes |
| `Pack.UnpackInt` | lua53/lua-5.3.1/src/lstrlib.c:1380-1403 | The integer of the bytes, sign-extended if signed, or an error exactly if unread bytes are no sign extension |
| `Pack.StrPack` | lua53/lua-5.3.1/src/lstrlib.c:1263-1344 | The loop over the format writes the packed items with their alignment, or gives the first error; what the options of a format mean says `PackFormat` |
| `Pack.StrPackSize` | lua53/lua-5.3.1/src/lstrlib.c:1347-1369 | The loop adds up sizes and alignment, and refuses items of variable size |
| `Pack.StrUnpack` | lua53/lua-5.3.1/src/lstrlib.c:1406-1467 | The loop reads the items and the final position, or gives the first error; of what `PackFormat.PackMeans` writes it gives the arguments back (`PackFormat.UnpackWritten`) |
| `PackFormat.PackMeans` | lua53/lua-5.3.1/src/lstrlib.c:1154-1340 | A format written option by option packs, from any place, the bytes that the options mean: widths of 1, 2, 4, 8 and 8 bytes for b, h, i, l, j and 8 for T, the order of the last of `<`, `>` and `=`, gaps as `!` limits them; or fails when one refuses its argument |
| `PackFormat.PackWritten` | lua53/lua-5.3.1/src/lstrlib.c:1263-1344 | The packed bytes are those the options mean, beginning little-endian and without alignment |
| `PackFormat.UnpackWritten` | lua53/lua-5.3.1/src/lstrlib.c:1406-1467 | Unpacking them gives arguments back and ends at their end |
| `PackFormat.PackInteger` | lua53/lua-5.3.1/src/lstrlib.c:1228-1242 | Byte k of the two's complement value stands at k, or at n - 1 - k after `>`; `=` is little-endian; it fails exactly if the value does not fit |
| `PackFormat.GapRight` | lua53/lua-5.3.1/src/lstrlib.c:1201-1219 | With its gap an item begins at a multiple of the smaller of its size and the limit, and the gap is less than that |
| `Resp.BuildQuery` | lua-redis-parser53/lua-redis-parser/redis-parser.c:793-921 | The second pass fills exactly the buffer that the first pass sized, with the message of the query |
| `Resp.SprintfNum` | lua-redis-parser53/lua-redis-parser/redis-parser.c:938-956 | The decimal digits of a number are appended |
| `Resp.GetNumSize` | lua-redis-parser53/lua-redis-parser/redis-parser.c:924-935 | The number of decimal digits |
| `Resp.ParseReady` | lua-redis-parser53/lua-redis-parser/redis-parser.c:341-383 | Complete with the length of the message, incomplete, or invalid, as the functions of the grammar say; which texts are complete says `RespGrammar.CompleteExactly` |
| `Resp.ParseElements` | lua-redis-parser53/lua-redis-parser/redis-parser.c:246-339 | The elements of a multi-bulk reply are read as the grammar says, or the data ends, or they are invalid |
| `Resp.ParseMultiBulk` | lua-redis-parser53/lua-redis-parser/redis-parser.c:679-790 | Without a minus sign in the count, the table of the elements or an error; with one, nil exactly if a digit follows it and the line ends in CR LF, otherwise an error; an error reads nothing |
| `RespGrammar.TableExactly` | lua-redis-parser53/lua-redis-parser/redis-parser.c:679-790 | A table is read from exactly the texts that consist of a count and as many lines, bulks and null bulks; a line gives its text up to the CR LF, a bulk its bytes, a null bulk nil |
| `RespGrammar.CompleteExactly` | lua-redis-parser53/lua-redis-parser/redis-parser.c:341-383 | The complete messages are exactly those with at least one element and no null bulk, with their length |
| `RespGrammar.PartRead` | lua-redis-parser53/lua-redis-parser/redis-parser.c:560-676 | A status, error or number line, a bulk or a null bulk is read back to its text |
| `RespGrammar.PartDerived` | lua-redis-parser53/lua-redis-parser/redis-parser.c:560-676 | Whatever is read as an element is written as one of these |
| `Resp.Framing` | lua-redis-parser53/lua-redis-parser/redis-parser.c:341-383 | A complete message is recognised with the same length whatever follows, and every proper beginning of it is incomplete |
| `Resp.QueryReady` | lua-redis-parser53/lua-redis-parser/redis-parser.c:341-383 | A query that was built is a complete message whatever follows, exactly if no argument is null |
| `Resp.QueryIncomplete` | lua-redis-parser53/lua-redis-parser/redis-parser.c:341-383 | Every proper beginning of such a query is incomplete |
| `Resp.QueryParsed` | lua-redis-parser53/lua-redis-parser/redis-parser.c:679-790 | A query that was built is parsed back to its arguments, nulls as nils, ending where it ends |
| `Json.DecodeEncode` | lua-cjson53/lua-cjson-master/lua_cjson.c:1259-1297 | Decoding inverts encoding for all trees of booleans, null, byte strings, hole-free arrays and string-keyed objects within the depth limit |
| `Json.RoundTrip` | lua-cjson53/lua-cjson-master/lua_cjson.c:1141-1297 | For every tree that is written: the text has no control character, is accepted exactly if it is not too deep, and then comes back as the tree's value exactly if the tree is faithful |
| `Json.SameValue` | lua-cjson53/lua-cjson-master/lua_cjson.c:564-707 | What comes back equals the value exactly if no nil is written as null, no array has a hole, and all object keys are strings |
| `Json.WrittenWhen` | lua-cjson53/lua-cjson-master/lua_cjson.c:534-707 | A tree is written exactly if it is within the depth and has only values and keys with a text and no too sparse array |
| `Json.ReadBack` | lua-cjson53/lua-cjson-master/lua_cjson.c:1230-1257 | The parser reads the text of a tree anywhere in a text and stops after it |
| `Json.StringBack` | lua-cjson53/lua-cjson-master/lua_cjson.c:461-485 | Every byte string is read back from its escaped text |
| `Json.EncodedClean` | lua-cjson53/lua-cjson-master/lua_cjson.c:461-485 | No encoded text holds a control character (section 7 of RFC 8259) |
| `Json.EscapeBack` | lua-cjson53/lua-cjson-master/lua_cjson.c:758-881 | Every Unicode code point is read back from its escape, one unit or a surrogate pair (section 7 of RFC 8259) |
| `Json.Utf8Right` | lua-cjson53/lua-cjson-master/lua_cjson.c:781-814 | The bytes are well-formed UTF-8 (section 4 of RFC 3629) and stand for the code point (section 3) |
| `Json.UnicodeEscape` | lua-cjson53/lua-cjson-master/lua_cjson.c:825-881 | An accepted escape stands for a code point that is no surrogate, and its UTF-8 is no longer than the escape |
| `Json.StringBody` | lua-cjson53/lua-cjson-master/lua_cjson.c:891-949 | A string is shorter than the text it was read from |
| `Json.JsonParse.NextStringToken` | lua-cjson53/lua-cjson-master/lua_cjson.c:891-949 | The loop reads the string of the grammar, and its unchecked appends stay within a buffer of the length of the text |
| `Json.JsonParse.AppendUnicodeEscape` | lua-cjson53/lua-cjson-master/lua_cjson.c:825-881 | The UTF-8 of an escape is appended and the pointer moved, or nothing is done |
| `Json.JsonParse.NextToken` | lua-cjson53/lua-cjson-master/lua_cjson.c:1020-1097 | The next token of the grammar, with nothing read beyond the end of the text; space, tab, line feed and carriage return before it are skipped (`JsonGrammar.BlankRead`) |
| `Json.JsonParse.ProcessValue` | lua-cjson53/lua-cjson-master/lua_cjson.c:1230-1257 | The value of the grammar, or its error, with the depth restored on success |
| `Json.JsonParse.ParseObject` | lua-cjson53/lua-cjson-master/lua_cjson.c:1141-1189 | The object of the grammar, a later field of the same name replacing an earlier one |
| `Json.JsonParse.ParseArray` | lua-cjson53/lua-cjson-master/lua_cjson.c:1192-1227 | The array of the grammar, with its items at 1, 2 and so on |
| `Json.JsonDecode` | lua-cjson53/lua-cjson-master/lua_cjson.c:1259-1297 | The value of the whole text, or its error |
| `JsonGrammar.DecodeExactly` | lua-cjson53/lua-cjson-master/lua_cjson.c:1141-1297 | A text is decoded to a value exactly if a derivation within the depth, with any white space around its tokens and any escapes in its strings, has that text and that value; so trailing commas and trailing text are refused |
| `JsonGrammar.DecodeRead` | lua-cjson53/lua-cjson-master/lua_cjson.c:1141-1297 | Every derived text is decoded to the value of its derivation, or refused if it is nested too deep |
| `JsonGrammar.SpacesIgnored` | lua-cjson53/lua-cjson-master/lua_cjson.c:1022-1032 | Runs of space, tab, line feed and carriage return around the tokens change nothing: the text without them gives the same value, or both fail |
| `JsonGrammar.StringRead` | lua-cjson53/lua-cjson-master/lua_cjson.c:891-949 | A string of characters, short escapes, code units and surrogate pairs is read as what they stand for |
| `JsonGrammar.StringDerived` | lua-cjson53/lua-cjson-master/lua_cjson.c:891-949 | Whatever is read as a string consists of these |
| `JsonGrammar.BlankRead` | lua-cjson53/lua-cjson-master/lua_cjson.c:1022-1032 | White space before a token is skipped |
| `Json.Encoder.AppendData` | lua-cjson53/lua-cjson-master/lua_cjson.c:666-707 | Appends the text of a value, or fails as the first part without a text does |
| `Json.Encoder.AppendString` | lua-cjson53/lua-cjson-master/lua_cjson.c:461-485 | Appends the escaped string, within the room of six characters for each byte and the quotes |
| `Json.Encoder.AppendArray` | lua-cjson53/lua-cjson-master/lua_cjson.c:564-584 | Appends the items from 1 to the length, holes as null |
| `Json.Encoder.LuaArrayLength` | lua-cjson53/lua-cjson-master/lua_cjson.c:491-532 | The largest index if all keys are positive integers and not too sparse, otherwise -1 or an error |
| `Json.FormWhen` | lua-cjson53/lua-cjson-master/lua_cjson.c:491-532 | With the positive integers up to m as keys a table is written as an array, unless m is above the safe size and above the ratio times the number of items; then it is an error, or an object if the configuration converts it; an empty table is an object |
| `Json.ObjectWhen` | lua-cjson53/lua-cjson-master/lua_cjson.c:491-532 | A table with any other key is written as an object |
| `Json.JsonEncode` | lua-cjson53/lua-cjson-master/lua_cjson.c:709-738 | The text of a tree, or the failure |

## Left out

Members whose contracts say less than the code does:

- LuaTable.Table.FindAny: does not compare the addresses of dead keys; strings are keys by content, so a dead short string that was freed and interned again at another address is found here and not by `findindex`. Whoever holds the key passed to `next` keeps the string from being freed.
- LuaTable.Table.Run: takes fewer than 2^30 entries, the most the hash part of the model holds; the "table overflow" error of a larger one is not modelled.
- Pack.StrUnpack: rejects the floating-point options; starts from a position counted from 0 and inside the model's unbounded numbers; negative positions and the wrap-around of `pos + len + size` are not modelled.
- Scopes.Parse: leaves out that `locvars` indices stand between active variables and their names.
- Json.JsonParse.NextToken: reports a number as an invalid token, since numbers are not modelled.
- Json.JsonParse.ProcessValue: reports a number as an invalid token.
- Json.JsonDecode: rejects a text with a number.
- Json.Encoder.AppendData: has no number values, only number keys.
- Json.JsonEncode: has no number values, only number keys.
- Json.Encoder.LuaArrayLength: counts keys and keeps the largest in unbounded numbers; the `int` variables `max` and `items` of the source can overflow.
- Pack.StrPack: rejects the floating-point options `f`, `d` and `n` as invalid.
- Pack.StrPackSize: rejects the floating-point options `f`, `d` and `n` as invalid.
- TableSort.AuxSort: takes an order function that gives the same answer each time it is asked; one that changes its answers, raises an error or changes the table is not covered, nor is the overflow of `(l+u)/2`.
- TableSort.Sort: takes such an order function too.
- GcSweep.ReachableAlive: takes as premises what `Collector.GlobalState.Safe` supplies in every state of a run.
- GcSweep.CollectedExactly: takes as premise what one cycle collected, which `Collector.GlobalState.FullGC` supplies.

Garbage collector:

- finalizers and their lists, debt and pauses, emergency collections, the shrinking of the string table;
- open upvalues inside the collector (its cells are closed; `Upvalues` models open ones), the cache of prototypes, the part of a stack above its top;
- metatable changes of weak tables: the barrier of `lua_setmetatable` does not fire for a gray all-weak table, so a weak mode and metatable are fixed here;
- the `gclist` links are sequences, and the address of a new object is the allocator's choice, a parameter;
- dead keys and entries with nil values (they are in `LuaTable`).

Tables:

- memory errors, metamethods and the cache of absent metamethods; hash functions are parameters, with the sizes and moduli of `mainposition` kept.

Code generator:

- arithmetic, indexing, calls, concatenation and constant folding; statements other than those that use a value or a condition; goto; line information;
- the limits on registers and jump distances, and OP_LOADKX; registers are unbounded numbers;
- expressions are trees, since the parser's token handling would only add easy members.

Patterns:

- `string.gmatch`, the pushing of captures, and the expansion of `%1` in a replacement string (the replacement is a function of the match);
- locales other than "C"; errors raised by long jumps are results.

Decimal conversion:

- the floating-point estimate of the decimal exponent (any one that is right or one too large is taken), the floating-point fast paths, the unpacking of a double, free lists and the buffer of the result;
- `strtod`, and rounding modes other than round-half-even.

Upvalues and stack:

- coroutines, and the running of the closures; allocation failures.

String table, sorting, packing:

- strings that are dead when they are found (`Collector.GlobalState.InternHit`), and the seed of the hash, which is a parameter;
- errors raised inside an order function, and comparison metamethods;
- floating-point items (`f`, `d`, `n`); sizes are those of a little-endian machine with 64-bit longs.

Redis protocol and JSON:

- numbers: the overflow of counts in the Redis parser, and number values of JSON; number keys of JSON objects are printed as integers below 10^14, as "%.14g" does;
- the growth of `strbuf`, the Lua stack limit, and the configuration functions.
