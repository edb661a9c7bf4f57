/** `any_completion_handler` as it is written: two pointers per wrapper, overwritten in
    place, over a store of implementation objects. */
module CompletionHandler {
  import opened Machine
  import opened Ownership

  /** The implementation objects, the allocators that point to them, and what has become of
      the objects already freed. */
  class Store {
    var impls: map<nat, TypeId>
    var next: nat
    var calls: map<nat, Frame>
    var copies: map<nat, Wrapper>
    var freed: seq<nat>
    var invoked: seq<nat>
    var dropped: seq<nat>

    ghost function World(wrappers: map<nat, Wrapper>): World
      reads this
    {
      Ownership.World(wrappers, copies, impls, next, calls, freed, invoked, dropped)
    }

    constructor ()
      ensures World(map[]) == EMPTY_WORLD
    {
      impls, next, calls, copies := map[], 0, map[], map[];
      freed, invoked, dropped := [], [], [];
    }

    /** `create`: allocates an object and moves the handler into it. */
    method Create(typ: TypeId) returns (n: nat)
      modifies this
      ensures n == old(next) && next == n + 1 && impls == old(impls)[n := typ]
      ensures freed == old(freed) && invoked == old(invoked) && dropped == old(dropped)
      ensures calls == old(calls) && copies == old(copies)
    {
      n := next;
      impls := impls[n := typ];
      next := next + 1;
    }

    /** `destroy`: ends the handler's life with the object's. */
    method Destroy(n: nat)
      requires n in impls
      modifies this
      ensures impls == old(impls) - {n} && freed == old(freed) + [n] && dropped == old(dropped) + [n]
      ensures next == old(next) && invoked == old(invoked) && calls == old(calls) && copies == old(copies)
    {
      impls := impls - {n};
      freed := freed + [n];
      dropped := dropped + [n];
    }

    /** `call` is entered: from here on the object belongs to its `unique_ptr`. */
    method BeginCall(table: TypeId, n: nat)
      modifies this`calls
      ensures calls == old(calls)[n := Frame(table, false, MoveOut)]
    {
      calls := calls[n := Frame(table, false, MoveOut)];
    }

    /** The object of a call is live and of the type of the table the call came through. */
    ghost predicate Live(n: nat)
      requires n in calls
      reads this
    {
      n in impls && impls[n] == calls[n].table
    }

    /** The handler is moved into a local. */
    method MoveHandlerOut(n: nat)
      requires n in calls && calls[n].next == MoveOut && Live(n)
      modifies this`calls
      ensures Advanced(old(World(map[])), n) == Next(World(map[]))
    {
      calls := calls[n := calls[n].(taken := true, next := Reset)];
    }

    /** The `unique_ptr` is reset: the object is destroyed and its block freed. */
    method ResetPtr(n: nat)
      requires n in calls && calls[n].next == Reset && Live(n)
      modifies this
      ensures Advanced(old(World(map[])), n) == Next(World(map[]))
    {
      impls := impls - {n};
      freed := freed + [n];
      calls := calls[n := calls[n].(next := Invoke)];
    }

    /** The local handler is invoked. */
    method InvokeHandler(n: nat)
      requires n in calls && calls[n].next == Invoke && calls[n].taken
      modifies this
      ensures Advanced(old(World(map[])), n) == Next(World(map[]))
    {
      invoked := invoked + [n];
      calls := calls[n := calls[n].(next := Body)];
    }

    /** The next statement of a call, or its end. */
    method Advance(n: nat)
      requires n in calls && CallSettled(World(map[]), n, calls[n])
      modifies this
      ensures Advanced(old(World(map[])), n) == Next(World(map[]))
    {
      match calls[n].next
      case MoveOut => MoveHandlerOut(n);
      case Reset => ResetPtr(n);
      case Invoke => InvokeHandler(n);
      case Body => calls := calls - {n};
    }

    /** `call`, with nothing in between, up to the body of the handler. */
    method Call(table: TypeId, n: nat)
      requires n in impls && impls[n] == table
      modifies this
      ensures impls == old(impls) - {n} && freed == old(freed) + [n] && invoked == old(invoked) + [n]
      ensures calls == old(calls)[n := Frame(table, true, Body)] && next == old(next) && dropped == old(dropped)
      ensures copies == old(copies)
    {
      BeginCall(table, n);
      MoveHandlerOut(n);
      ResetPtr(n);
      InvokeHandler(n);
    }
  }

  /** How an operation ends: `Threw` is `std::bad_function_call` or `std::bad_alloc`, and
      `Broke` the use of a table on no object or on one that was freed. */
  datatype Ending = Fine | Threw | Broke

  class AnyCompletionHandler {
    var fnTable: Option<TypeId>
    var impl: Option<nat>

    ghost function Value(): Wrapper
      reads this
    {
      Wrapper(fnTable, impl)
    }

    /** The table's entries cast the object to the table's own handler type. */
    ghost predicate Safe(store: Store)
      reads this, store
    {
      impl.Some? ==> impl.value in store.impls && fnTable == Some(store.impls[impl.value])
    }

    constructor Empty()
      ensures Value() == EMPTY_WRAPPER
    {
      fnTable, impl := None, None;
    }

    constructor Target(store: Store, typ: TypeId)
      modifies store
      ensures Value() == Wrapper(Some(typ), Some(old(store.next)))
      ensures store.next == old(store.next) + 1 && store.impls == old(store.impls)[old(store.next) := typ]
      ensures store.freed == old(store.freed) && store.invoked == old(store.invoked)
      ensures store.dropped == old(store.dropped) && store.calls == old(store.calls)
      ensures store.copies == old(store.copies)
    {
      fnTable := Some(typ);
      new;
      var n := store.Create(typ);
      impl := Some(n);
    }

    constructor Moved(other: AnyCompletionHandler)
      modifies other
      ensures Value() == old(other.Value()) && other.Value() == EMPTY_WRAPPER
    {
      fnTable, impl := other.fnTable, other.impl;
      new;
      other.fnTable := None;
      other.impl := None;
    }

    method Swap(other: AnyCompletionHandler)
      modifies this, other
      ensures Value() == old(other.Value()) && other.Value() == old(Value())
    {
      var t, i := fnTable, impl;
      fnTable, impl := other.fnTable, other.impl;
      other.fnTable := t;
      other.impl := i;
    }

    /** The destructor. */
    method Destroy(store: Store)
      requires Safe(store)
      modifies store
      ensures Destroyed(old(store.World(map[])), Value()) == Next(store.World(map[]))
    {
      if impl.Some? {
        store.Destroy(impl.value);
      }
    }

    /** Move assignment: a temporary takes over from `other`, is swapped with this wrapper and
        is destroyed with the old content; `other` may be this wrapper itself. */
    method MoveAssign(store: Store, other: AnyCompletionHandler)
      requires Safe(store)
      modifies this, other, store
      ensures this != other ==> Value() == old(other.Value()) && other.Value() == EMPTY_WRAPPER
      ensures this == other ==> Value() == old(Value())
      ensures var gone := if this == other then EMPTY_WRAPPER else old(Value());
              Destroyed(old(store.World(map[])), gone) == Next(store.World(map[]))
    {
      var tmp := new AnyCompletionHandler.Moved(other);
      tmp.Swap(this);
      tmp.Destroy(store);
    }

    method AssignNull(store: Store)
      requires Safe(store)
      modifies this, store
      ensures Value() == EMPTY_WRAPPER
      ensures Destroyed(old(store.World(map[])), old(Value())) == Next(store.World(map[]))
    {
      var tmp := new AnyCompletionHandler.Empty();
      tmp.Swap(this);
      tmp.Destroy(store);
    }

    /** `operator()`, up to the first statement of `call`. */
    method Begin(store: Store) returns (r: Ending)
      requires Safe(store)
      modifies this, store
      ensures r == if old(impl).None? then Threw else Fine
      ensures r.Threw? ==> Value() == old(Value()) && store.World(map[]) == old(store.World(map[]))
      ensures r.Fine? ==>
                && Value() == old(Value()).(impl := None)
                && store.World(map[]) ==
                   old(store.World(map[])).(
                     calls := old(store.calls)[old(impl).value := Frame(old(fnTable).value, false, MoveOut)])
    {
      if impl.Some? {
        var target := impl.value;
        impl := None;
        store.BeginCall(fnTable.value, target);
        return Fine;
      }
      r := Threw;
    }

    /** `operator()` with nothing in between, up to the body of the handler: `impl_` is null,
        the handler in a local and the block freed when the body is entered. */
    method Call(store: Store) returns (r: Ending)
      requires Safe(store)
      modifies this, store
      ensures r == if old(impl).None? then Threw else Fine
      ensures r.Threw? ==> Value() == old(Value()) && store.World(map[]) == old(store.World(map[]))
      ensures r.Fine? ==>
                var n := old(impl).value;
                && Value() == old(Value()).(impl := None)
                && store.impls == old(store.impls) - {n} && store.freed == old(store.freed) + [n]
                && store.invoked == old(store.invoked) + [n]
                && store.calls == old(store.calls)[n := Frame(old(fnTable).value, true, Body)]
                && store.next == old(store.next) && store.dropped == old(store.dropped)
                && store.copies == old(store.copies)
    {
      if impl.Some? {
        var target := impl.value;
        impl := None;
        store.Call(fnTable.value, target);
        return Fine;
      }
      r := Threw;
    }

    /** An associated executor. */
    method Query(store: Store) returns (r: Ending)
      requires Safe(store)
      ensures r == if Leftover(Value()) then Broke else Fine
    {
      if fnTable.Some? {
        return if impl.Some? then Fine else Broke;
      }
      r := Fine;
    }
  }

  /** Any number of wrappers over one store. */
  class Program {
    const store: Store
    var slots: map<nat, AnyCompletionHandler>

    constructor ()
      ensures Valid() && fresh(store) && View() == EMPTY_WORLD
    {
      store := new Store();
      slots := map[];
    }

    ghost predicate Valid()
      reads this
    {
      forall a, b :: a in slots && b in slots && a != b ==> slots[a] != slots[b]
    }

    ghost function View(): World
      reads this, store, slots.Values
    {
      store.World(map a | a in slots :: slots[a].Value())
    }

    /** Reading one wrapper out of the view. */
    lemma ViewAt(a: nat)
      requires a in slots && Inv(View())
      ensures View().wrappers[a] == slots[a].Value() && slots[a].Safe(store)
    {
    }

    method ConstructEmpty(at: nat)
      requires Valid() && Inv(View()) && Allowed(View(), NewEmpty(at))
      modifies this, store, slots.Values
      ensures Valid() && fresh(slots.Values - old(slots.Values))
      ensures Step(old(View()), NewEmpty(at)) == Next(View())
    {
      hide Inv, Destroyed, Advanced;
      ghost var m: map<nat, Wrapper>, v := View().wrappers, slots.Values;
      var h := new AnyCompletionHandler.Empty();
      slots := slots[at := h];
      assert View().wrappers == m[at := EMPTY_WRAPPER];
      assert slots.Values - v <= {h};
    }

    method ConstructTarget(at: nat, typ: TypeId)
      requires Valid() && Inv(View()) && Allowed(View(), NewHandler(at, typ))
      modifies this, store, slots.Values
      ensures Valid() && fresh(slots.Values - old(slots.Values))
      ensures Step(old(View()), NewHandler(at, typ)) == Next(View())
    {
      hide Inv, Destroyed, Advanced;
      ghost var m: map<nat, Wrapper>, v := View().wrappers, slots.Values;
      var h := new AnyCompletionHandler.Target(store, typ);
      slots := slots[at := h];
      assert View().wrappers == m[at := h.Value()];
      assert slots.Values - v <= {h};
    }

    method ConstructMoved(at: nat, from: nat)
      requires Valid() && Inv(View()) && Allowed(View(), NewMoved(at, from))
      modifies this, store, slots.Values
      ensures Valid() && fresh(slots.Values - old(slots.Values))
      ensures Step(old(View()), NewMoved(at, from)) == Next(View())
    {
      hide Inv, Destroyed, Advanced;
      ghost var m: map<nat, Wrapper>, v := View().wrappers, slots.Values;
      var h := new AnyCompletionHandler.Moved(slots[from]);
      slots := slots[at := h];
      assert View().wrappers == m[at := m[from]][from := EMPTY_WRAPPER];
      assert slots.Values - v <= {h};
    }

    method AssignMoved(to: nat, from: nat)
      requires Valid() && Inv(View()) && Allowed(View(), MoveAssign(to, from))
      modifies this, store, slots.Values
      ensures Valid() && fresh(slots.Values - old(slots.Values))
      ensures Step(old(View()), MoveAssign(to, from)) == Next(View())
    {
      hide Inv, Destroyed, Advanced, Reaches;
      ViewAt(to);
      ghost var m: map<nat, Wrapper> := View().wrappers;
      ghost var left := m[from := EMPTY_WRAPPER];
      DestroyedFrame(store.World(map[]), left[to := m[from]], left[to]);
      slots[to].MoveAssign(store, slots[from]);
      assert View().wrappers == left[to := m[from]];
    }

    method AssignNothing(to: nat)
      requires Valid() && Inv(View()) && Allowed(View(), AssignNull(to))
      modifies this, store, slots.Values
      ensures Valid() && fresh(slots.Values - old(slots.Values))
      ensures Step(old(View()), AssignNull(to)) == Next(View())
    {
      hide Inv, Destroyed, Advanced, Reaches;
      ViewAt(to);
      ghost var m: map<nat, Wrapper> := View().wrappers;
      DestroyedFrame(store.World(map[]), m[to := EMPTY_WRAPPER], m[to]);
      slots[to].AssignNull(store);
      assert View().wrappers == m[to := EMPTY_WRAPPER];
    }

    method Exchange(a: nat, b: nat)
      requires Valid() && Inv(View()) && Allowed(View(), Swap(a, b))
      modifies this, store, slots.Values
      ensures Valid() && fresh(slots.Values - old(slots.Values))
      ensures Step(old(View()), Swap(a, b)) == Next(View())
    {
      hide Inv, Destroyed, Advanced;
      ghost var m: map<nat, Wrapper> := View().wrappers;
      slots[a].Swap(slots[b]);
      assert View().wrappers == m[a := m[b]][b := m[a]];
    }

    method Drop(at: nat)
      requires Valid() && Inv(View()) && Allowed(View(), Delete(at))
      modifies this, store, slots.Values
      ensures Valid() && fresh(slots.Values - old(slots.Values))
      ensures Step(old(View()), Delete(at)) == Next(View())
    {
      hide Inv, Destroyed, Advanced, Reaches;
      ViewAt(at);
      ghost var m: map<nat, Wrapper> := View().wrappers;
      DestroyedFrame(store.World(map[]), m - {at}, m[at]);
      slots[at].Destroy(store);
      slots := slots - {at};
      assert View().wrappers == m - {at};
    }

    method BeginCall(at: nat) returns (r: Ending)
      requires Valid() && Inv(View()) && Allowed(View(), Call(at))
      modifies this, store, slots.Values
      ensures Valid() && slots == old(slots)
      ensures Matches(Step(old(View()), Call(at)), r)
    {
      hide Inv, Destroyed, Advanced;
      ViewAt(at);
      ghost var w := View();
      r := slots[at].Begin(store);
      assert r.Fine? ==> View().wrappers == w.wrappers[at := slots[at].Value()];
      assert r.Threw? ==> View().wrappers == w.wrappers;
    }

    method Advance(n: nat)
      requires Valid() && Inv(View()) && Allowed(View(), Ownership.Advance(n))
      modifies store
      ensures Step(old(View()), Ownership.Advance(n)) == Next(View())
    {
      assert CallSettled(View(), n, View().calls[n]);
      hide Inv, Destroyed, Advanced;
      ghost var m: map<nat, Wrapper> := View().wrappers;
      AdvancedFrame(store.World(map[]), m, n);
      store.Advance(n);
      assert View().wrappers == m;
    }

    method Ask(at: nat) returns (r: Ending)
      requires Valid() && Inv(View()) && Allowed(View(), Query(at))
      ensures Matches(Step(View(), Query(at)), r)
    {
      ViewAt(at);
      StepKeeps(View(), Query(at));
      hide Inv, Destroyed, Advanced;
      r := slots[at].Query(store);
    }

    /** `get_allocator`, or the copy of an allocator, is a copy of both pointers. */
    method TakeAllocator(c: nat, at: nat)
      requires Valid() && Inv(View()) && Allowed(View(), GetAllocator(c, at))
      modifies store
      ensures Step(old(View()), GetAllocator(c, at)) == Next(View())
    {
      hide Inv, Destroyed, Advanced;
      ViewAt(at);
      ghost var m: map<nat, Wrapper> := View().wrappers;
      store.copies := store.copies[c := Wrapper(slots[at].fnTable, slots[at].impl)];
      assert View().wrappers == m;
    }

    method CloneAllocator(c: nat, other: nat)
      requires Valid() && Inv(View()) && Allowed(View(), CopyAllocator(c, other))
      modifies store
      ensures Step(old(View()), CopyAllocator(c, other)) == Next(View())
    {
      hide Inv, Destroyed, Advanced;
      ghost var m: map<nat, Wrapper> := View().wrappers;
      store.copies := store.copies[c := store.copies[other]];
      assert View().wrappers == m;
    }

    /** `allocate` of an associated allocator: only the table is looked at. */
    method AskAllocator(c: nat) returns (r: Ending)
      requires Valid() && Inv(View()) && Allowed(View(), Allocate(c))
      ensures Matches(Step(View(), Allocate(c)), r)
    {
      assert CopiesKnown(View());
      hide Inv, Owned;
      var p := store.copies[c];
      if p.table.None? {
        return Threw;
      }
      r := if p.impl.Some? && p.impl.value in store.impls then Fine else Broke;
    }

    /** The code ended as the model says, in the state it says. */
    ghost predicate Matches(o: Outcome, r: Ending)
      reads this, store, slots.Values
    {
      match o
      case Next(w) => r.Fine? && View() == w
      case Throw(w) => r.Threw? && View() == w
      case Fault => r.Broke?
    }

    /** Every operation of the class, on any wrappers of the program, does what the ownership
        model says. */
    method Apply(op: Op) returns (r: Ending)
      requires Valid() && Inv(View()) && Allowed(View(), op)
      modifies this, store, slots.Values
      ensures Valid() && fresh(slots.Values - old(slots.Values))
      ensures Matches(Step(old(View()), op), r)
    {
      hide Inv, Destroyed, Advanced;
      r := Fine;
      match op
      case NewEmpty(at) => ConstructEmpty(at);
      case NewHandler(at, typ) => ConstructTarget(at, typ);
      case NewMoved(at, from) => ConstructMoved(at, from);
      case MoveAssign(to, from) => AssignMoved(to, from);
      case AssignNull(to) => AssignNothing(to);
      case Swap(a, b) => Exchange(a, b);
      case Delete(at) => Drop(at);
      case Call(at) => r := BeginCall(at);
      case Advance(n) => Advance(n);
      case Query(at) => r := Ask(at);
      case GetAllocator(c, at) => TakeAllocator(c, at);
      case CopyAllocator(c, other) => CloneAllocator(c, other);
      case Allocate(c) => r := AskAllocator(c);
    }

    /** So what is proved of every run holds of this code: it breaks exactly when the run
        faults, and otherwise ends in the state the run ends in. */
    method Replay(ops: seq<Op>) returns (broke: bool)
      requires Valid() && Inv(View()) && AllowedRun(View(), ops)
      modifies this, store, slots.Values
      ensures Valid() && fresh(slots.Values - old(slots.Values))
      ensures Run(old(View()), ops) == if broke then Fault else Next(View())
    {
      hide Inv, Step, Allowed;
      ghost var w := View();
      assert ops[0..] == ops;
      for k := 0 to |ops|
        invariant Valid() && Inv(View()) && fresh(slots.Values - old(slots.Values))
        invariant AllowedRun(View(), ops[k..]) && Run(View(), ops[k..]) == Run(w, ops)
      {
        assert ops[k..][0] == ops[k] && ops[k..][1..] == ops[k + 1..];
        StepKeeps(View(), ops[k]);
        var r := Apply(ops[k]);
        if r.Broke? {
          return true;
        }
      }
      assert ops[|ops|..] == [];
      broke := false;
    }
  }
}
