/** Who owns a completion handler: every run of creating, moving, assigning, swapping,
    calling and destroying `any_completion_handler` wrappers. */
module Ownership {
  import opened Machine

  type TypeId = nat

  /** The two pointers of a wrapper: the function table, named by the handler type it was
      made for, and the implementation object. */
  datatype Wrapper = Wrapper(table: Option<TypeId>, impl: Option<nat>)

  const EMPTY_WRAPPER := Wrapper(None, None)

  /** The statements of `call` on an implementation object, in their order, and the body of
      the handler behind them. */
  datatype Stage = MoveOut | Reset | Invoke | Body

  /** A call under way: the table it was made through, whether the handler has been moved
      into the local, and what comes next.  The object belongs to the call from the moment it
      is taken from the wrapper until `Reset`. */
  datatype Frame = Frame(table: TypeId, taken: bool, next: Stage) {
    predicate Owns() {
      next == MoveOut || next == Reset
    }
  }

  /** Implementation objects are numbered in the order they are created, and each holds one
      handler, which shares its number.  `copies` are associated allocators, which copy both
      pointers; `calls` are the calls under way, by object; `freed` lists the blocks given
      back, `invoked` the handlers whose body was entered and `dropped` those destroyed without
      a call, in order. */
  datatype World = World(
    wrappers: map<nat, Wrapper>,
    copies: map<nat, Wrapper>,
    impls: map<nat, TypeId>,
    next: nat,
    calls: map<nat, Frame>,
    freed: seq<nat>,
    invoked: seq<nat>,
    dropped: seq<nat>)

  const EMPTY_WORLD := World(map[], map[], map[], 0, map[], [], [], [])

  /** `Throw` is a call of an empty wrapper, or a request to the allocator of one.  `Fault` is
      a table used on no object or on one of another type, an object used or freed after it
      was freed, or a handler invoked that was not moved out before. */
  datatype Outcome = Next(world: World) | Throw(world: World) | Fault

  /** The cast in a table entry is right only for the table's own type. */
  predicate Reaches(w: World, p: Wrapper) {
    p.impl.Some? && p.impl.value in w.impls && p.table == Some(w.impls[p.impl.value])
  }

  /** The end of a wrapper's life: the handler it still holds is destroyed uncalled, and the
      block freed. */
  function Destroyed(w: World, p: Wrapper): Outcome {
    if p.impl.None? then Next(w)
    else if !Reaches(w, p) then Fault
    else
      var n := p.impl.value;
      Next(w.(impls := w.impls - {n}, freed := w.freed + [n], dropped := w.dropped + [n]))
  }

  /** The next statement of the call on object `n`. */
  function Advanced(w: World, n: nat): Outcome
    requires n in w.calls
  {
    var f := w.calls[n];
    var live := n in w.impls && w.impls[n] == f.table;
    match f.next
    case MoveOut => if live then Next(w.(calls := w.calls[n := f.(taken := true, next := Reset)])) else Fault
    case Reset =>
      if live then
        Next(w.(calls := w.calls[n := f.(next := Invoke)], impls := w.impls - {n}, freed := w.freed + [n]))
      else Fault
    case Invoke =>
      if f.taken then Next(w.(calls := w.calls[n := f.(next := Body)], invoked := w.invoked + [n])) else Fault
    case Body => Next(w.(calls := w.calls - {n}))
  }

  /** `Query` asks for an associated executor.  `GetAllocator` and `CopyAllocator` make an
      associated allocator from a wrapper or from another one, and `Allocate` asks it for
      memory.  `Advance` lets a call go on by one statement; between two statements of a
      call anything else may happen, be it in a handler's move constructor, in its body or
      in another thread. */
  datatype Op =
    | NewEmpty(at: nat)
    | NewHandler(at: nat, typ: TypeId)
    | NewMoved(at: nat, from: nat)
    | MoveAssign(to: nat, from: nat)
    | AssignNull(to: nat)
    | Swap(a: nat, b: nat)
    | Delete(at: nat)
    | Call(at: nat)
    | Advance(n: nat)
    | Query(at: nat)
    | GetAllocator(c: nat, at: nat)
    | CopyAllocator(c: nat, other: nat)
    | Allocate(c: nat)

  /** Wrappers are constructed where there is none and used while they exist. */
  predicate Allowed(w: World, op: Op) {
    match op
    case NewEmpty(at) => at !in w.wrappers
    case NewHandler(at, _) => at !in w.wrappers
    case NewMoved(at, from) => at !in w.wrappers && from in w.wrappers
    case MoveAssign(to, from) => to in w.wrappers && from in w.wrappers
    case AssignNull(to) => to in w.wrappers
    case Swap(a, b) => a in w.wrappers && b in w.wrappers
    case Delete(at) => at in w.wrappers
    case Call(at) => at in w.wrappers
    case Advance(n) => n in w.calls
    case Query(at) => at in w.wrappers
    case GetAllocator(c, at) => c !in w.copies && at in w.wrappers
    case CopyAllocator(c, other) => c !in w.copies && other in w.copies
    case Allocate(c) => c in w.copies
  }

  function Step(w: World, op: Op): Outcome
    requires Allowed(w, op)
  {
    match op
    case NewEmpty(at) => Next(w.(wrappers := w.wrappers[at := EMPTY_WRAPPER]))
    case NewHandler(at, typ) =>
      Next(w.(wrappers := w.wrappers[at := Wrapper(Some(typ), Some(w.next))],
              impls := w.impls[w.next := typ], next := w.next + 1))
    case NewMoved(at, from) =>
      Next(w.(wrappers := w.wrappers[at := w.wrappers[from]][from := EMPTY_WRAPPER]))
    case MoveAssign(to, from) =>
      // A temporary takes over from `from`, is swapped with `to`, and dies.
      var taken, left := w.wrappers[from], w.wrappers[from := EMPTY_WRAPPER];
      Destroyed(w.(wrappers := left[to := taken]), left[to])
    case AssignNull(to) => Destroyed(w.(wrappers := w.wrappers[to := EMPTY_WRAPPER]), w.wrappers[to])
    case Swap(a, b) => Next(w.(wrappers := w.wrappers[a := w.wrappers[b]][b := w.wrappers[a]]))
    case Delete(at) => Destroyed(w.(wrappers := w.wrappers - {at}), w.wrappers[at])
    case Call(at) =>
      // `impl_` is cleared and `call` entered through the table, which stays.
      var p := w.wrappers[at];
      if p.impl.None? then Throw(w)
      else if !Reaches(w, p) then Fault
      else
        Next(w.(wrappers := w.wrappers[at := p.(impl := None)],
                calls := w.calls[p.impl.value := Frame(p.table.value, false, MoveOut)]))
    case Advance(n) => Advanced(w, n)
    case Query(at) =>
      // Only the table is looked at before it is used.
      var p := w.wrappers[at];
      if p.table.None? || Reaches(w, p) then Next(w) else Fault
    case GetAllocator(c, at) => Next(w.(copies := w.copies[c := w.wrappers[at]]))
    case CopyAllocator(c, other) => Next(w.(copies := w.copies[c := w.copies[other]]))
    case Allocate(c) =>
      var p := w.copies[c];
      if p.table.None? then Throw(w) else if Reaches(w, p) then Next(w) else Fault
  }

  /** A table without an object. */
  predicate Leftover(p: Wrapper) {
    p.table.Some? && p.impl.None?
  }

  // ------------------------------------------------------------ the invariant

  /** The object `n` is held by `loose` or by some wrapper. */
  ghost predicate Held(m: map<nat, Wrapper>, loose: Wrapper, n: nat) {
    loose.impl == Some(n) || exists a :: a in m && m[a].impl == Some(n)
  }

  /** The object `n` belongs to a call under way. */
  predicate Carried(w: World, n: nat) {
    n in w.calls && w.calls[n].Owns()
  }

  /** A wrapper with an object has the table of that object's type, and no other wrapper or
      call has that object.  `loose` is a wrapper outside the map, such as the temporary of
      an assignment. */
  ghost predicate OwnersDistinct(w: World, loose: Wrapper) {
    && (loose.impl.Some? ==> Reaches(w, loose) && !Carried(w, loose.impl.value))
    && (forall a :: a in w.wrappers && w.wrappers[a].impl.Some? ==>
          Reaches(w, w.wrappers[a]) && w.wrappers[a].impl != loose.impl && !Carried(w, w.wrappers[a].impl.value))
    && (forall a, b :: a in w.wrappers && b in w.wrappers && a != b && w.wrappers[a].impl.Some? ==>
          w.wrappers[a].impl != w.wrappers[b].impl)
  }

  ghost predicate NothingLeaked(w: World, loose: Wrapper) {
    forall n :: n in w.impls ==> Carried(w, n) || Held(w.wrappers, loose, n)
  }

  ghost predicate NoRepeat(s: seq<nat>) {
    forall i, j :: 0 <= i < j < |s| ==> s[i] != s[j]
  }

  /** How far a call has come says what has become of its object and its handler. */
  predicate CallSettled(w: World, n: nat, f: Frame) {
    match f.next
    case MoveOut => n in w.impls && w.impls[n] == f.table
    case Reset => n in w.impls && w.impls[n] == f.table && f.taken
    case Invoke => n in w.freed && n !in w.invoked && n !in w.dropped && f.taken
    case Body => n in w.invoked
  }

  /** The handler of `n` has been moved out of its object and not been invoked yet. */
  predicate Awaiting(w: World, n: nat) {
    n in w.calls && w.calls[n].next == Invoke
  }

  /** Every object made so far is live or was freed, not both; and the handler of a freed
      one was either called or destroyed uncalled, not both, and once, or is about to be
      called. */
  ghost predicate FatesSettled(w: World) {
    && NoRepeat(w.freed) && NoRepeat(w.invoked) && NoRepeat(w.dropped)
    && (forall n :: n in w.impls ==> n < w.next && n !in w.freed)
    && (forall n: nat :: n < w.next ==> n in w.impls || n in w.freed)
    && (forall n :: n in w.freed <==> n in w.invoked || n in w.dropped || Awaiting(w, n))
    && (forall n :: n in w.freed ==> n < w.next)
    && (forall n :: n in w.invoked ==> n !in w.dropped)
    && (forall n :: n in w.calls ==> CallSettled(w, n, w.calls[n]))
  }

  ghost predicate InvWith(w: World, loose: Wrapper) {
    OwnersDistinct(w, loose) && NothingLeaked(w, loose) && FatesSettled(w)
  }

  ghost predicate Owned(w: World) {
    InvWith(w, EMPTY_WRAPPER)
  }

  /** An allocator with an object has the table of that object's type, as long as there is
      such an object. */
  ghost predicate CopiesKnown(w: World) {
    forall c :: c in w.copies && w.copies[c].impl.Some? ==>
      var n := w.copies[c].impl.value;
      n < w.next && w.copies[c].table.Some? && (n in w.impls ==> w.impls[n] == w.copies[c].table.value)
  }

  ghost predicate Inv(w: World) {
    Owned(w) && CopiesKnown(w)
  }

  lemma NotUnderWay(w: World, n: nat)
    requires FatesSettled(w) && n in w.impls && !Carried(w, n)
    ensures n !in w.calls
  {
    assert n in w.calls ==> CallSettled(w, n, w.calls[n]);
  }

  lemma DropFates(w: World, n: nat, w': World)
    requires FatesSettled(w) && n in w.impls && !Carried(w, n)
    requires w' == w.(impls := w.impls - {n}, freed := w.freed + [n], dropped := w.dropped + [n])
    ensures FatesSettled(w')
  {
    NotUnderWay(w, n);
    forall m | m in w'.calls
      ensures CallSettled(w', m, w'.calls[m])
    {
      assert CallSettled(w, m, w.calls[m]);
    }
  }

  lemma DestroyedKeeps(w: World, loose: Wrapper)
    requires InvWith(w, loose)
    ensures Destroyed(w, loose).Next? && Owned(Destroyed(w, loose).world)
  {
    hide FatesSettled;
    if loose.impl.Some? {
      DropFates(w, loose.impl.value, Destroyed(w, loose).world);
    }
  }

  // ------------------------------------------------------------ each step

  lemma HeldAt(m: map<nat, Wrapper>, loose: Wrapper, n: nat, a: nat)
    requires a in m && m[a].impl == Some(n)
    ensures Held(m, loose, n)
  {
  }

  /** Moving contents between wrappers, the loose one included, keeps every object held. */
  lemma StillHeld(m: map<nat, Wrapper>, to: nat, from: nat, n: nat)
    requires from in m && to in m && Held(m, EMPTY_WRAPPER, n)
    ensures Held(m[from := EMPTY_WRAPPER][to := m[from]], m[from := EMPTY_WRAPPER][to], n)
  {
    var m' := m[from := EMPTY_WRAPPER][to := m[from]];
    var a :| a in m && m[a].impl == Some(n);
    if a == from {
      assert m'[to].impl == Some(n);
    } else if a != to {
      assert m'[a].impl == Some(n);
    }
  }

  lemma SameFates(w: World, w': World)
    requires FatesSettled(w) && w' == w.(wrappers := w'.wrappers)
    ensures FatesSettled(w')
  {
  }

  lemma MoveDistinct(w: World, to: nat, from: nat, w': World)
    requires OwnersDistinct(w, EMPTY_WRAPPER) && to in w.wrappers && from in w.wrappers
    requires w' == w.(wrappers := w.wrappers[from := EMPTY_WRAPPER][to := w.wrappers[from]])
    ensures OwnersDistinct(w', w.wrappers[from := EMPTY_WRAPPER][to])
  {
  }

  lemma MoveAssignKeeps(w: World, to: nat, from: nat)
    requires Owned(w) && to in w.wrappers && from in w.wrappers
    ensures Step(w, MoveAssign(to, from)).Next? && Owned(Step(w, MoveAssign(to, from)).world)
  {
    hide FatesSettled, OwnersDistinct;
    var left := w.wrappers[from := EMPTY_WRAPPER];
    var w' := w.(wrappers := left[to := w.wrappers[from]]);
    SameFates(w, w');
    MoveDistinct(w, to, from, w');
    forall n | n in w'.impls && !Carried(w', n)
      ensures Held(w'.wrappers, left[to], n)
    {
      StillHeld(w.wrappers, to, from, n);
    }
    DestroyedKeeps(w', left[to]);
  }

  lemma AssignNullKeeps(w: World, to: nat)
    requires Owned(w) && to in w.wrappers
    ensures Step(w, AssignNull(to)).Next? && Owned(Step(w, AssignNull(to)).world)
  {
    hide FatesSettled;
    var w' := w.(wrappers := w.wrappers[to := EMPTY_WRAPPER]);
    SameFates(w, w');
    forall n | n in w'.impls && !Carried(w', n)
      ensures Held(w'.wrappers, w.wrappers[to], n)
    {
      var a :| a in w.wrappers && w.wrappers[a].impl == Some(n);
      if a != to { HeldAt(w'.wrappers, w.wrappers[to], n, a); }
    }
    DestroyedKeeps(w', w.wrappers[to]);
  }

  lemma DeleteKeeps(w: World, at: nat)
    requires Owned(w) && at in w.wrappers
    ensures Step(w, Delete(at)).Next? && Owned(Step(w, Delete(at)).world)
  {
    hide FatesSettled;
    var w' := w.(wrappers := w.wrappers - {at});
    SameFates(w, w');
    forall n | n in w'.impls && !Carried(w', n)
      ensures Held(w'.wrappers, w.wrappers[at], n)
    {
      var a :| a in w.wrappers && w.wrappers[a].impl == Some(n);
      if a != at { HeldAt(w'.wrappers, w.wrappers[at], n, a); }
    }
    DestroyedKeeps(w', w.wrappers[at]);
  }

  lemma SwapKeeps(w: World, a: nat, b: nat)
    requires Owned(w) && a in w.wrappers && b in w.wrappers
    ensures Owned(Step(w, Swap(a, b)).world)
  {
    hide FatesSettled, OwnersDistinct;
    var w' := Step(w, Swap(a, b)).world;
    SameFates(w, w');
    forall n | n in w'.impls && !Carried(w', n)
      ensures Held(w'.wrappers, EMPTY_WRAPPER, n)
    {
      var c :| c in w.wrappers && w.wrappers[c].impl == Some(n);
      HeldAt(w'.wrappers, EMPTY_WRAPPER, n, if c == a then b else if c == b then a else c);
    }
    SwapDistinct(w, a, b, w');
  }

  lemma SwapDistinct(w: World, a: nat, b: nat, w': World)
    requires OwnersDistinct(w, EMPTY_WRAPPER) && a in w.wrappers && b in w.wrappers
    requires w' == w.(wrappers := w.wrappers[a := w.wrappers[b]][b := w.wrappers[a]])
    ensures OwnersDistinct(w', EMPTY_WRAPPER)
  {
  }

  lemma NewMovedDistinct(w: World, at: nat, from: nat, w': World)
    requires OwnersDistinct(w, EMPTY_WRAPPER) && at !in w.wrappers && from in w.wrappers
    requires w' == w.(wrappers := w.wrappers[at := w.wrappers[from]][from := EMPTY_WRAPPER])
    ensures OwnersDistinct(w', EMPTY_WRAPPER)
  {
  }

  lemma NewMovedKeeps(w: World, at: nat, from: nat)
    requires Owned(w) && at !in w.wrappers && from in w.wrappers
    ensures Owned(Step(w, NewMoved(at, from)).world)
  {
    hide FatesSettled, OwnersDistinct;
    var w' := Step(w, NewMoved(at, from)).world;
    SameFates(w, w');
    NewMovedDistinct(w, at, from, w');
    forall n | n in w'.impls && !Carried(w', n)
      ensures Held(w'.wrappers, EMPTY_WRAPPER, n)
    {
      var c :| c in w.wrappers && w.wrappers[c].impl == Some(n);
      HeldAt(w'.wrappers, EMPTY_WRAPPER, n, if c == from then at else c);
    }
  }

  lemma NewFates(w: World, w': World, typ: TypeId)
    requires FatesSettled(w)
    requires w' == w.(wrappers := w'.wrappers, impls := w.impls[w.next := typ], next := w.next + 1)
    ensures FatesSettled(w') && w.next !in w.impls && !Carried(w, w.next)
  {
    assert w.next in w.calls ==> CallSettled(w, w.next, w.calls[w.next]);
    forall n | n in w'.calls
      ensures CallSettled(w', n, w'.calls[n])
    {
      assert CallSettled(w, n, w.calls[n]);
    }
  }

  lemma NewDistinct(w: World, w': World, at: nat, typ: TypeId)
    requires OwnersDistinct(w, EMPTY_WRAPPER) && w.next !in w.impls && !Carried(w, w.next)
    requires w' == w.(wrappers := w.wrappers[at := Wrapper(Some(typ), Some(w.next))],
                      impls := w.impls[w.next := typ], next := w.next + 1)
    ensures OwnersDistinct(w', EMPTY_WRAPPER)
  {
  }

  lemma NewHandlerKeeps(w: World, at: nat, typ: TypeId)
    requires Owned(w) && at !in w.wrappers
    ensures Owned(Step(w, NewHandler(at, typ)).world)
  {
    hide FatesSettled, OwnersDistinct;
    var w' := Step(w, NewHandler(at, typ)).world;
    NewFates(w, w', typ);
    NewDistinct(w, w', at, typ);
    forall n | n in w'.impls && !Carried(w', n)
      ensures Held(w'.wrappers, EMPTY_WRAPPER, n)
    {
      if n == w.next {
        HeldAt(w'.wrappers, EMPTY_WRAPPER, n, at);
      } else {
        assert n in w.impls && !Carried(w, n);
        var c :| c in w.wrappers && w.wrappers[c].impl == Some(n);
        HeldAt(w'.wrappers, EMPTY_WRAPPER, n, c);
      }
    }
  }

  lemma NewEmptyKeeps(w: World, at: nat)
    requires Owned(w) && at !in w.wrappers
    ensures Owned(Step(w, NewEmpty(at)).world)
  {
    hide FatesSettled;
    var w' := Step(w, NewEmpty(at)).world;
    SameFates(w, w');
    forall n | n in w'.impls && !Carried(w', n)
      ensures Held(w'.wrappers, EMPTY_WRAPPER, n)
    {
      var c :| c in w.wrappers && w.wrappers[c].impl == Some(n);
      HeldAt(w'.wrappers, EMPTY_WRAPPER, n, c);
    }
  }

  /** What becomes of the objects and handlers when a call begins. */
  lemma CallFates(w: World, n: nat, w': World)
    requires FatesSettled(w) && n in w.impls && !Carried(w, n)
    requires w' == w.(wrappers := w'.wrappers, calls := w.calls[n := Frame(w.impls[n], false, MoveOut)])
    ensures FatesSettled(w')
  {
    NotUnderWay(w, n);
    forall m | m in w'.calls
      ensures CallSettled(w', m, w'.calls[m])
    {
      assert m != n ==> CallSettled(w, m, w.calls[m]);
    }
  }

  lemma CallDistinct(w: World, at: nat, w': World)
    requires OwnersDistinct(w, EMPTY_WRAPPER) && at in w.wrappers && w.wrappers[at].impl.Some?
    requires w.wrappers[at].table.Some?
    requires w' == w.(wrappers := w.wrappers[at := w.wrappers[at].(impl := None)],
                      calls := w.calls[w.wrappers[at].impl.value := Frame(w.wrappers[at].table.value, false, MoveOut)])
    ensures OwnersDistinct(w', EMPTY_WRAPPER)
  {
  }

  lemma CallKeeps(w: World, at: nat)
    requires Owned(w) && at in w.wrappers
    ensures !Step(w, Call(at)).Fault? && Owned(Step(w, Call(at)).world)
  {
    hide FatesSettled;
    var p := w.wrappers[at];
    if p.impl.Some? {
      assert Reaches(w, p) && !Carried(w, p.impl.value);
      hide OwnersDistinct;
      var n := p.impl.value;
      var w' := Step(w, Call(at)).world;
      CallFates(w, n, w');
      CallDistinct(w, at, w');
      forall m | m in w'.impls && !Carried(w', m)
        ensures Held(w'.wrappers, EMPTY_WRAPPER, m)
      {
        assert m != n && !Carried(w, m);
        var c :| c in w.wrappers && w.wrappers[c].impl == Some(m);
        HeldAt(w'.wrappers, EMPTY_WRAPPER, m, c);
      }
    }
  }

  lemma CallIsSettled(w: World, n: nat)
    requires FatesSettled(w) && n in w.calls
    ensures CallSettled(w, n, w.calls[n])
  {
  }

  lemma MoveOutFates(w: World, n: nat)
    requires FatesSettled(w) && n in w.calls && w.calls[n].next == MoveOut
    ensures Advanced(w, n).Next? && FatesSettled(Advanced(w, n).world)
  {
    CallIsSettled(w, n);
    var w' := Advanced(w, n).world;
    forall m | m in w'.calls
      ensures CallSettled(w', m, w'.calls[m])
    {
      CallIsSettled(w, m);
    }
  }

  lemma ResetFates(w: World, n: nat)
    requires FatesSettled(w) && n in w.calls && w.calls[n].next == Reset
    ensures Advanced(w, n).Next? && FatesSettled(Advanced(w, n).world)
  {
    CallIsSettled(w, n);
    var w' := Advanced(w, n).world;
    forall m | m in w'.calls
      ensures CallSettled(w', m, w'.calls[m])
    {
      CallIsSettled(w, m);
    }
  }

  lemma InvokeFates(w: World, n: nat)
    requires FatesSettled(w) && n in w.calls && w.calls[n].next == Invoke
    ensures Advanced(w, n).Next? && FatesSettled(Advanced(w, n).world)
  {
    CallIsSettled(w, n);
    var w' := Advanced(w, n).world;
    forall m | m in w'.calls
      ensures CallSettled(w', m, w'.calls[m])
    {
      CallIsSettled(w, m);
    }
  }

  lemma ReturnFates(w: World, n: nat)
    requires FatesSettled(w) && n in w.calls && w.calls[n].next == Body
    ensures Advanced(w, n).Next? && FatesSettled(Advanced(w, n).world)
  {
    CallIsSettled(w, n);
    var w' := Advanced(w, n).world;
    forall m | m in w'.calls
      ensures CallSettled(w', m, w'.calls[m])
    {
      CallIsSettled(w, m);
    }
  }

  /** Every statement of `call` finds its object and its handler in the state it needs. */
  lemma AdvanceFates(w: World, n: nat)
    requires FatesSettled(w) && n in w.calls
    ensures Advanced(w, n).Next? && FatesSettled(Advanced(w, n).world)
  {
    hide FatesSettled, Advanced;
    match w.calls[n].next
    case MoveOut => MoveOutFates(w, n);
    case Reset => ResetFates(w, n);
    case Invoke => InvokeFates(w, n);
    case Body => ReturnFates(w, n);
  }

  lemma AdvanceDistinct(w: World, n: nat)
    requires OwnersDistinct(w, EMPTY_WRAPPER) && NothingLeaked(w, EMPTY_WRAPPER)
    requires n in w.calls && Advanced(w, n).Next?
    ensures OwnersDistinct(Advanced(w, n).world, EMPTY_WRAPPER) && NothingLeaked(Advanced(w, n).world, EMPTY_WRAPPER)
  {
    hide Held;
    var f, w' := w.calls[n], Advanced(w, n).world;
    forall m | m != n
      ensures Carried(w', m) == Carried(w, m)
    {
    }
    assert Carried(w', n) ==> Carried(w, n);
    assert !Carried(w', n) ==> f.next == MoveOut || n !in w'.impls || !Carried(w, n);
  }

  lemma AdvanceKeeps(w: World, n: nat)
    requires Owned(w) && n in w.calls
    ensures Advanced(w, n).Next? && Owned(Advanced(w, n).world)
  {
    AdvanceFates(w, n);
    AdvanceDistinct(w, n);
  }

  /** An allocator that has a table, and no object or one that was freed. */
  predicate Dead(w: World, c: nat) {
    && c in w.copies && w.copies[c].table.Some?
    && (w.copies[c].impl.Some? ==> w.copies[c].impl.value in w.freed)
  }

  lemma DestroyedImpls(w: World, p: Wrapper)
    requires !Destroyed(w, p).Fault?
    ensures var w' := Destroyed(w, p).world;
            && w'.copies == w.copies && w'.next == w.next
            && forall n :: n in w'.impls ==> n in w.impls && w'.impls[n] == w.impls[n]
  {
  }

  /** The objects of a step are those there were, and perhaps a new one. */
  lemma StepImpls(w: World, op: Op)
    requires Allowed(w, op) && !Step(w, op).Fault?
    ensures var w' := Step(w, op).world;
            && w.next <= w'.next
            && (forall n :: n in w'.impls && n < w.next ==> n in w.impls && w'.impls[n] == w.impls[n])
            && (!op.GetAllocator? && !op.CopyAllocator? ==> w'.copies == w.copies)
  {
    hide Destroyed;
    match op
    case MoveAssign(to, from) =>
      var left := w.wrappers[from := EMPTY_WRAPPER];
      DestroyedImpls(w.(wrappers := left[to := w.wrappers[from]]), left[to]);
    case AssignNull(to) => DestroyedImpls(w.(wrappers := w.wrappers[to := EMPTY_WRAPPER]), w.wrappers[to]);
    case Delete(at) => DestroyedImpls(w.(wrappers := w.wrappers - {at}), w.wrappers[at]);
    case _ =>
  }

  lemma CopiesKeep(w: World, op: Op)
    requires Inv(w) && Allowed(w, op) && !Step(w, op).Fault?
    ensures CopiesKnown(Step(w, op).world)
  {
    StepImpls(w, op);
    match op
    case GetAllocator(c, at) =>
      if w.wrappers[at].impl.Some? { WrapperKnown(w, at); }
    case CopyAllocator(c, other) =>
    case _ =>
      hide Step;
  }

  lemma WrapperKnown(w: World, at: nat)
    requires Owned(w) && at in w.wrappers && w.wrappers[at].impl.Some?
    ensures var n := w.wrappers[at].impl.value;
            n < w.next && n in w.impls && w.wrappers[at].table == Some(w.impls[n])
  {
  }

  lemma AllocateFaultsIff(w: World, c: nat)
    requires Inv(w) && c in w.copies
    ensures Step(w, Allocate(c)).Fault? <==> Dead(w, c)
  {
    hide OwnersDistinct, NothingLeaked;
  }

  /** A step goes wrong in two ways only, and otherwise keeps the invariant: a wrapper that has
      a table and no object is asked for an executor, or an allocator whose object is gone for
      memory. */
  lemma StepKeeps(w: World, op: Op)
    requires Inv(w) && Allowed(w, op)
    ensures Step(w, op).Fault? <==> (op.Query? && Leftover(w.wrappers[op.at])) || (op.Allocate? && Dead(w, op.c))
    ensures !Step(w, op).Fault? ==> Inv(Step(w, op).world)
    ensures Step(w, op).Throw? <==>
            (op.Call? && w.wrappers[op.at].impl.None?) || (op.Allocate? && w.copies[op.c].table.None?)
    ensures Step(w, op).Throw? ==> Step(w, op).world == w
  {
    hide Owned, CopiesKnown, Dead;
    OwnedKeeps(w, op);
    ThrowsIff(w, op);
    if op.Allocate? { AllocateFaultsIff(w, op.c); }
    if !Step(w, op).Fault? {
      CopiesKeep(w, op);
      hide Step;
    }
  }

  lemma ThrowsIff(w: World, op: Op)
    requires Allowed(w, op)
    ensures Step(w, op).Throw? <==>
            (op.Call? && w.wrappers[op.at].impl.None?) || (op.Allocate? && w.copies[op.c].table.None?)
    ensures Step(w, op).Throw? ==> Step(w, op).world == w
  {
  }

  lemma OwnedKeeps(w: World, op: Op)
    requires Owned(w) && Allowed(w, op)
    ensures Step(w, op).Fault? ==> op.Query? || op.Allocate?
    ensures op.Query? ==> (Step(w, op).Fault? <==> Leftover(w.wrappers[op.at]))
    ensures !Step(w, op).Fault? ==> Owned(Step(w, op).world)
  {
    match op
    case NewEmpty(at) => NewEmptyKeeps(w, at);
    case NewHandler(at, typ) => NewHandlerKeeps(w, at, typ);
    case NewMoved(at, from) => NewMovedKeeps(w, at, from);
    case MoveAssign(to, from) => MoveAssignKeeps(w, to, from);
    case AssignNull(to) => AssignNullKeeps(w, to);
    case Swap(a, b) => SwapKeeps(w, a, b);
    case Delete(at) => DeleteKeeps(w, at);
    case Call(at) => CallKeeps(w, at);
    case Advance(n) => AdvanceKeeps(w, n);
    case Query(at) =>
    case GetAllocator(c, at) => CopyOwned(w, Step(w, op).world);
    case CopyAllocator(c, other) => CopyOwned(w, Step(w, op).world);
    case Allocate(c) =>
  }

  lemma CopyOwned(w: World, w': World)
    requires Owned(w) && w' == w.(copies := w'.copies)
    ensures Owned(w')
  {
  }

  lemma DestroyedFrame(w: World, m: map<nat, Wrapper>, p: Wrapper)
    ensures match Destroyed(w, p)
            case Next(w') => w'.wrappers == w.wrappers && Destroyed(w.(wrappers := m), p) == Next(w'.(wrappers := m))
            case _ => Destroyed(w.(wrappers := m), p) == Fault
  {
  }

  lemma AdvancedFrame(w: World, m: map<nat, Wrapper>, n: nat)
    requires n in w.calls
    ensures match Advanced(w, n)
            case Next(w') => w'.wrappers == w.wrappers && Advanced(w.(wrappers := m), n) == Next(w'.(wrappers := m))
            case _ => Advanced(w.(wrappers := m), n) == Fault
  {
  }

  // ------------------------------------------------------------ every run

  predicate AllowedRun(w: World, ops: seq<Op>)
    decreases |ops|
  {
    ops == [] ||
    (Allowed(w, ops[0]) && (Step(w, ops[0]).Fault? || AllowedRun(Step(w, ops[0]).world, ops[1..])))
  }

  function Run(w: World, ops: seq<Op>): Outcome
    requires AllowedRun(w, ops)
    decreases |ops|
  {
    if ops == [] then Next(w)
    else if Step(w, ops[0]).Fault? then Fault
    else Run(Step(w, ops[0]).world, ops[1..])
  }

  lemma {:induction false} RunIsSafe(w: World, ops: seq<Op>)
    requires Inv(w) && AllowedRun(w, ops) && !Run(w, ops).Fault?
    ensures Run(w, ops).Next? && Inv(Run(w, ops).world)
    decreases |ops|
  {
    if ops != [] {
      StepKeeps(w, ops[0]);
      hide Inv, Step, Allowed;
      RunIsSafe(Step(w, ops[0]).world, ops[1..]);
    }
  }

  /** Over every run from nothing, whatever happens between the statements of a call: every
      object has at most one owner, reached through the table of its own type; a freed object
      was freed once; its handler was called once or destroyed uncalled, never both; a body
      is entered only when its object has been freed; and when no wrapper is left and no call
      has an object, every object ever made has been freed. */
  lemma EveryRun(ops: seq<Op>)
    requires AllowedRun(EMPTY_WORLD, ops) && !Run(EMPTY_WORLD, ops).Fault?
    ensures Run(EMPTY_WORLD, ops).Next?
    ensures var w := Run(EMPTY_WORLD, ops).world;
            && (forall a :: a in w.wrappers && w.wrappers[a].impl.Some? ==>
                  Reaches(w, w.wrappers[a]) && !Carried(w, w.wrappers[a].impl.value))
            && (forall a, b :: a in w.wrappers && b in w.wrappers && a != b && w.wrappers[a].impl.Some? ==>
                  w.wrappers[a].impl != w.wrappers[b].impl)
            && NoRepeat(w.freed) && NoRepeat(w.invoked) && NoRepeat(w.dropped)
            && (forall n :: n in w.invoked || n in w.dropped ==> n in w.freed)
            && (forall n :: n in w.freed ==> n in w.invoked || n in w.dropped || Awaiting(w, n))
            && (forall n :: n in w.invoked ==> n !in w.dropped)
            && (forall n: nat :: n < w.next ==> (n in w.impls <==> n !in w.freed))
            && (w.wrappers == map[] && (forall n :: !Carried(w, n)) ==> forall n: nat :: n < w.next ==> n in w.freed)
  {
    assert Inv(EMPTY_WORLD);
    RunIsSafe(EMPTY_WORLD, ops);
    hide Run, AllowedRun;
  }

  // ------------------------------------------------------------ calls

  /** Whatever has happened before, when the body of a handler is about to be entered the
      handler is in the local of its call, its block is freed, no wrapper holds the object,
      and the body has not been entered before. */
  lemma CallReleasesFirst(ops: seq<Op>, n: nat)
    requires AllowedRun(EMPTY_WORLD, ops) && !Run(EMPTY_WORLD, ops).Fault?
    requires n in Run(EMPTY_WORLD, ops).world.calls
    ensures var w := Run(EMPTY_WORLD, ops).world;
            && Step(w, Advance(n)).Next?
            && (Step(w, Advance(n)).world.invoked != w.invoked ==>
                  && Step(w, Advance(n)).world.invoked == w.invoked + [n] && n !in w.invoked
                  && w.calls[n].taken && n in w.freed && n !in w.impls
                  && forall a :: a in w.wrappers ==> w.wrappers[a].impl != Some(n))
  {
    assert Inv(EMPTY_WORLD);
    RunIsSafe(EMPTY_WORLD, ops);
    var w := Run(EMPTY_WORLD, ops).world;
    hide Run, AllowedRun, Inv;
    EntersFreed(w, n);
  }

  lemma EntersFreed(w: World, n: nat)
    requires Inv(w) && n in w.calls
    ensures Advanced(w, n).Next?
    ensures Advanced(w, n).world.invoked != w.invoked ==>
              && Advanced(w, n).world.invoked == w.invoked + [n] && n !in w.invoked
              && w.calls[n].taken && n in w.freed && n !in w.impls
              && forall a :: a in w.wrappers ==> w.wrappers[a].impl != Some(n)
  {
    CallIsSettled(w, n);
    assert n in w.freed ==> n !in w.impls;
    hide FatesSettled;
  }

  lemma StatementsOfCall(w: World, n: nat, t: TypeId)
    requires n in w.impls && w.impls[n] == t && n in w.calls && w.calls[n] == Frame(t, false, MoveOut)
    ensures var ops := [Advance(n), Advance(n), Advance(n)];
            && AllowedRun(w, ops)
            && Run(w, ops) ==
               Next(w.(impls := w.impls - {n}, calls := w.calls[n := Frame(t, true, Body)],
                       freed := w.freed + [n], invoked := w.invoked + [n]))
  {
    var w1 := Step(w, Advance(n)).world;
    var w2 := Step(w1, Advance(n)).world;
    var w3 := Step(w2, Advance(n)).world;
    hide Step, AllowedRun, Run;
    RunNone(w3);
    RunFirst(w2, Advance(n), []);
    RunFirst(w1, Advance(n), [Advance(n)]);
    RunFirst(w, Advance(n), [Advance(n), Advance(n)]);
  }

  /** A call with nothing in between, up to the body. */
  lemma CallStraight(w: World, at: nat)
    requires at in w.wrappers && Reaches(w, w.wrappers[at])
    ensures var p, n := w.wrappers[at], w.wrappers[at].impl.value;
            var ops := [Call(at), Advance(n), Advance(n), Advance(n)];
            && AllowedRun(w, ops)
            && Run(w, ops) ==
               Next(w.(wrappers := w.wrappers[at := p.(impl := None)], impls := w.impls - {n},
                       calls := w.calls[n := Frame(p.table.value, true, Body)],
                       freed := w.freed + [n], invoked := w.invoked + [n]))
  {
    var p, n := w.wrappers[at], w.wrappers[at].impl.value;
    var w1 := Step(w, Call(at)).world;
    hide AllowedRun, Run;
    StatementsOfCall(w1, n, p.table.value);
    RunFirst(w, Call(at), [Advance(n), Advance(n), Advance(n)]);
  }

  lemma RunNone(w: World)
    ensures AllowedRun(w, []) && Run(w, []) == Next(w)
  {
  }

  lemma RunFirst(w: World, op: Op, ops: seq<Op>)
    requires Allowed(w, op) && !Step(w, op).Fault?
    ensures AllowedRun(w, [op] + ops) <==> AllowedRun(Step(w, op).world, ops)
    ensures AllowedRun(w, [op] + ops) ==> Run(w, [op] + ops) == Run(Step(w, op).world, ops)
  {
    assert ([op] + ops)[1..] == ops;
  }

  lemma StepKeepsFreed(w: World, op: Op, n: nat)
    requires Allowed(w, op) && n in w.freed && !Step(w, op).Fault?
    ensures n in Step(w, op).world.freed
  {
  }

  /** Whatever the body of a called handler does, and whatever is done afterwards, its object
      is never live again, never held again, and never freed a second time. */
  lemma {:induction false} FreedForever(w: World, ops: seq<Op>, n: nat)
    requires Inv(w) && AllowedRun(w, ops) && n in w.freed && !Run(w, ops).Fault?
    ensures var w' := Run(w, ops).world;
            && n in w'.freed && n !in w'.impls && NoRepeat(w'.freed)
            && forall a :: a in w'.wrappers ==> w'.wrappers[a].impl != Some(n)
    decreases |ops|
  {
    if ops != [] {
      StepKeeps(w, ops[0]);
      StepKeepsFreed(w, ops[0], n);
      hide Inv, Step, Allowed;
      FreedForever(Step(w, ops[0]).world, ops[1..], n);
    }
  }

  /** Assigning a wrapper to itself by move changes nothing. */
  lemma SelfMove(w: World, a: nat)
    requires a in w.wrappers
    ensures Step(w, MoveAssign(a, a)) == Next(w)
  {
  }

  // ------------------------------------------------------------ what a call leaves behind

  /** Where the content of wrapper `a` is after `op`, if it is anywhere. */
  function Moved(op: Op, a: nat): Option<nat> {
    match op
    case NewMoved(at, from) => Some(if a == from then at else a)
    case MoveAssign(to, from) => if a == from then Some(to) else if a == to then None else Some(a)
    case AssignNull(to) => if a == to then None else Some(a)
    case Swap(x, y) => Some(if a == x then y else if a == y then x else a)
    case Delete(at) => if a == at then None else Some(a)
    case _ => Some(a)
  }

  function MovedBy(ops: seq<Op>, a: nat): Option<nat>
    decreases |ops|
  {
    if ops == [] then Some(a)
    else
      match Moved(ops[0], a)
      case None => None
      case Some(b) => MovedBy(ops[1..], b)
  }

  predicate CallsTarget(w: World, op: Op) {
    op.Call? && op.at in w.wrappers && w.wrappers[op.at].impl.Some?
  }

  /** A wrapper keeps its table after it lost its object, so a table alone does not tell that
      there is a target.  After a step a wrapper is in that state exactly when it was called,
      with a target, in this step, or has its content from a wrapper that was in it before. */
  lemma LeftoverStep(w: World, op: Op, b: nat)
    requires Allowed(w, op) && !Step(w, op).Fault? && b in Step(w, op).world.wrappers
    ensures Leftover(Step(w, op).world.wrappers[b]) <==>
            || (op == Call(b) && CallsTarget(w, op))
            || exists a :: a in w.wrappers && Leftover(w.wrappers[a]) && Moved(op, a) == Some(b)
  {
    var m := Step(w, op).world.wrappers;
    if op.NewMoved? && b == op.at {
      assert Moved(op, op.from) == Some(b);
    } else if op.MoveAssign? && b == op.to {
      assert Moved(op, op.from) == Some(b);
    } else if op.Swap? && (b == op.a || b == op.b) {
      assert Moved(op, if b == op.a then op.b else op.a) == Some(b);
    }
  }

  /** Operation `i` of the run calls a wrapper that has a target. */
  predicate CallsTargetAt(w: World, ops: seq<Op>, i: nat)
    decreases |ops|
  {
    && i < |ops| && ops[i].Call? && Allowed(w, ops[0])
    && if i == 0 then CallsTarget(w, ops[0])
       else !Step(w, ops[0]).Fault? && CallsTargetAt(Step(w, ops[0]).world, ops[1..], i - 1)
  }

  /** The content of wrapper `b` after the run is what a call left behind: some wrapper was
      called with a target, or had been before the run, and its content then moved to `b`. */
  ghost predicate LeftBehind(w: World, ops: seq<Op>, b: nat) {
    || (exists a :: a in w.wrappers && Leftover(w.wrappers[a]) && MovedBy(ops, a) == Some(b))
    || (exists i: nat :: CallsTargetAt(w, ops, i) && MovedBy(ops[i + 1..], ops[i].at) == Some(b))
  }

  lemma LeftBehindBack(w: World, ops: seq<Op>, b: nat)
    requires ops != [] && Allowed(w, ops[0]) && !Step(w, ops[0]).Fault?
    requires LeftBehind(Step(w, ops[0]).world, ops[1..], b)
    ensures LeftBehind(w, ops, b)
  {
    var op, w', rest := ops[0], Step(w, ops[0]).world, ops[1..];
    hide Step, Leftover, Moved;
    if c :| c in w'.wrappers && Leftover(w'.wrappers[c]) && MovedBy(rest, c) == Some(b) {
      LeftoverStep(w, op, c);
      if op == Call(c) && CallsTarget(w, op) {
        assert CallsTargetAt(w, ops, 0) && MovedBy(ops[0 + 1..], ops[0].at) == Some(b);
      } else {
        var a :| a in w.wrappers && Leftover(w.wrappers[a]) && Moved(op, a) == Some(c);
        assert MovedBy(ops, a) == Some(b);
      }
    } else {
      var i: nat :| CallsTargetAt(w', rest, i) && MovedBy(rest[i + 1..], rest[i].at) == Some(b);
      assert ops[(i + 1) + 1..] == rest[i + 1..] && ops[i + 1] == rest[i];
      assert CallsTargetAt(w, ops, i + 1);
    }
  }

  lemma MovedStays(w: World, op: Op, a: nat)
    requires Allowed(w, op) && !Step(w, op).Fault? && a in w.wrappers && Moved(op, a).Some?
    ensures Moved(op, a).value in Step(w, op).world.wrappers
  {
  }

  lemma LeftBehindForth(w: World, ops: seq<Op>, b: nat)
    requires ops != [] && Allowed(w, ops[0]) && !Step(w, ops[0]).Fault?
    requires LeftBehind(w, ops, b)
    ensures LeftBehind(Step(w, ops[0]).world, ops[1..], b)
  {
    var op, w', rest := ops[0], Step(w, ops[0]).world, ops[1..];
    if a :| a in w.wrappers && Leftover(w.wrappers[a]) && MovedBy(ops, a) == Some(b) {
      var c := Moved(op, a).value;
      MovedStays(w, op, a);
      hide Step, Leftover;
      LeftoverStep(w, op, c);
    } else {
      var i: nat :| CallsTargetAt(w, ops, i) && MovedBy(ops[i + 1..], ops[i].at) == Some(b);
      hide Step, Leftover;
      if i == 0 {
        MovedStays(w, op, op.at);
        LeftoverStep(w, op, op.at);
      } else {
        assert rest[(i - 1) + 1..] == ops[i + 1..] && rest[i - 1] == ops[i];
        assert CallsTargetAt(w', rest, i - 1);
      }
    }
  }

  /** After any run, a wrapper has a table and no object exactly when its content is what a
      call left behind. */
  lemma {:induction false} LeftoverIffCalled(w: World, ops: seq<Op>, b: nat)
    requires AllowedRun(w, ops) && Run(w, ops).Next? && b in Run(w, ops).world.wrappers
    ensures Leftover(Run(w, ops).world.wrappers[b]) <==> LeftBehind(w, ops, b)
    decreases |ops|
  {
    if ops == [] {
      assert MovedBy(ops, b) == Some(b);
    } else {
      LeftoverIffCalled(Step(w, ops[0]).world, ops[1..], b);
      if LeftBehind(w, ops, b) { LeftBehindForth(w, ops, b); }
      if LeftBehind(Step(w, ops[0]).world, ops[1..], b) { LeftBehindBack(w, ops, b); }
    }
  }

  /** Operation `j` asks a wrapper whose content is what a call left behind. */
  ghost predicate AsksLeftover(w: World, ops: seq<Op>, j: nat) {
    j < |ops| && ops[j].Query? && LeftBehind(w, ops[..j], ops[j].at)
  }

  /** Operation `j` asks an allocator that is dead by then. */
  predicate UsesDead(w: World, ops: seq<Op>, j: nat)
    decreases |ops|
  {
    && j < |ops| && Allowed(w, ops[0])
    && if j == 0 then ops[0].Allocate? && Dead(w, ops[0].c)
       else !Step(w, ops[0]).Fault? && UsesDead(Step(w, ops[0]).world, ops[1..], j - 1)
  }

  lemma AsksFirst(w: World, ops: seq<Op>)
    requires ops != [] && Inv(w) && Allowed(w, ops[0])
    ensures Step(w, ops[0]).Fault? <==> AsksLeftover(w, ops, 0) || UsesDead(w, ops, 0)
  {
    StepKeeps(w, ops[0]);
    hide Inv, Step, Dead;
    if ops[0].Query? && Leftover(w.wrappers[ops[0].at]) {
      assert MovedBy(ops[..0], ops[0].at) == Some(ops[0].at);
    }
  }

  lemma AsksLater(w: World, ops: seq<Op>, j: nat)
    requires ops != [] && Allowed(w, ops[0]) && !Step(w, ops[0]).Fault?
    ensures AsksLeftover(w, ops, j + 1) <==> AsksLeftover(Step(w, ops[0]).world, ops[1..], j)
    ensures UsesDead(w, ops, j + 1) <==> UsesDead(Step(w, ops[0]).world, ops[1..], j)
  {
    hide Step, LeftBehind, Dead;
    var w', rest := Step(w, ops[0]).world, ops[1..];
    if j < |rest| {
      assert ops[..j + 1][1..] == rest[..j];
      if AsksLeftover(w', rest, j) { LeftBehindBack(w, ops[..j + 1], rest[j].at); }
      if AsksLeftover(w, ops, j + 1) { LeftBehindForth(w, ops[..j + 1], rest[j].at); }
    }
  }

  /** A run goes wrong exactly when it asks a wrapper whose content an earlier call left
      behind, or an allocator that is dead by then. */
  lemma {:induction false} FaultIffAsksLeftover(w: World, ops: seq<Op>)
    requires Inv(w) && AllowedRun(w, ops)
    ensures Run(w, ops).Fault? <==> exists j: nat :: AsksLeftover(w, ops, j) || UsesDead(w, ops, j)
    decreases |ops|
  {
    hide Inv, Step, AsksLeftover, UsesDead;
    if ops == [] {
      AsksNothing(w);
    } else {
      AsksFirst(w, ops);
      StepKeeps(w, ops[0]);
      if !Step(w, ops[0]).Fault? {
        var w', rest := Step(w, ops[0]).world, ops[1..];
        FaultIffAsksLeftover(w', rest);
        if j: nat :| AsksLeftover(w', rest, j) || UsesDead(w', rest, j) {
          AsksLater(w, ops, j);
        }
        if j: nat :| AsksLeftover(w, ops, j) || UsesDead(w, ops, j) {
          AsksLater(w, ops, j - 1);
        }
      }
    }
  }

  lemma AsksNothing(w: World)
    ensures forall j: nat :: !AsksLeftover(w, [], j) && !UsesDead(w, [], j)
  {
  }

  lemma {:induction false} CopyStays(w: World, ops: seq<Op>, c: nat)
    requires AllowedRun(w, ops) && !Run(w, ops).Fault? && c in w.copies
    ensures Run(w, ops).Next? && c in Run(w, ops).world.copies && Run(w, ops).world.copies[c] == w.copies[c]
    decreases |ops|
  {
    if ops != [] {
      CopyKept(w, ops[0], c);
      hide Step, Allowed;
      CopyStays(Step(w, ops[0]).world, ops[1..], c);
    }
  }

  lemma CopyKept(w: World, op: Op, c: nat)
    requires Allowed(w, op) && !Step(w, op).Fault? && c in w.copies
    ensures c in Step(w, op).world.copies && Step(w, op).world.copies[c] == w.copies[c]
  {
    StepImpls(w, op);
    if !op.GetAllocator? && !op.CopyAllocator? {
      hide Step;
    }
  }

  /** Whatever happens after an allocator was taken from a wrapper, asking it goes wrong
      exactly when the wrapper had a table and no object then, or its object has been freed
      since, by a call or a destruction. */
  lemma DeadIffFreedSince(w: World, c: nat, at: nat, ops: seq<Op>)
    requires Allowed(w, GetAllocator(c, at))
    requires AllowedRun(w, [GetAllocator(c, at)] + ops) && !Run(w, [GetAllocator(c, at)] + ops).Fault?
    ensures var w', p := Run(w, [GetAllocator(c, at)] + ops).world, w.wrappers[at];
            Dead(w', c) <==> Leftover(p) || (p.table.Some? && p.impl.Some? && p.impl.value in w'.freed)
  {
    var w1 := Step(w, GetAllocator(c, at)).world;
    assert w1.copies[c] == w.wrappers[at];
    hide Step, Run, AllowedRun;
    RunFirst(w, GetAllocator(c, at), ops);
    CopyStays(w1, ops, c);
  }

  /** A wrapper that was never called, but moved from one that was, is asked. */
  lemma MovedLeftoverFaults(t: TypeId)
    ensures var ops := [NewHandler(1, t), Call(1), NewMoved(2, 1), Query(2)];
            AllowedRun(EMPTY_WORLD, ops) && Run(EMPTY_WORLD, ops).Fault?
  {
    var w1 := Step(EMPTY_WORLD, NewHandler(1, t)).world;
    var w2 := Step(w1, Call(1)).world;
    var w3 := Step(w2, NewMoved(2, 1)).world;
    assert w3.wrappers[2] == Wrapper(Some(t), None);
    assert AllowedRun(w3, [Query(2)]) && Run(w3, [Query(2)]) == Fault;
    hide Step, AllowedRun, Run;
    RunFirst(w2, NewMoved(2, 1), [Query(2)]);
    RunFirst(w1, Call(1), [NewMoved(2, 1), Query(2)]);
    RunFirst(EMPTY_WORLD, NewHandler(1, t), [Call(1), NewMoved(2, 1), Query(2)]);
  }

  /** An allocator is asked after its wrapper was destroyed. */
  lemma DeadAllocatorFaults(t: TypeId)
    ensures var ops := [NewHandler(1, t), GetAllocator(1, 1), Delete(1), Allocate(1)];
            AllowedRun(EMPTY_WORLD, ops) && Run(EMPTY_WORLD, ops).Fault?
  {
    var w1 := Step(EMPTY_WORLD, NewHandler(1, t)).world;
    var w2 := Step(w1, GetAllocator(1, 1)).world;
    var w3 := Step(w2, Delete(1)).world;
    assert w3.copies[1] == Wrapper(Some(t), Some(0)) && 0 !in w3.impls;
    assert AllowedRun(w3, [Allocate(1)]) && Run(w3, [Allocate(1)]) == Fault;
    hide Step, AllowedRun, Run;
    RunFirst(w2, Delete(1), [Allocate(1)]);
    RunFirst(w1, GetAllocator(1, 1), [Delete(1), Allocate(1)]);
    RunFirst(EMPTY_WORLD, NewHandler(1, t), [GetAllocator(1, 1), Delete(1), Allocate(1)]);
  }
}
