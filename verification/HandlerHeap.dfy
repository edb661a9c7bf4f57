/** Every interleaving of allocating through a completion handler, writing to what was
    granted, and giving it back. */
module HandlerHeap {
  import opened Machine
  import opened AlignedBlocks

  /** A live block of the handler's own allocator, with the number of its allocation. */
  datatype Block = Block(serial: nat, len: nat)

  datatype Arena = Arena(mem: Memory, blocks: map<nat, Block>, next: nat, freed: seq<nat>)

  /** What the client knows about memory it holds, and where the block really starts. */
  datatype Grant = Grant(base: nat, size: nat, align: nat)

  /** `lost` are the blocks that an `allocate` which threw had taken; nobody has them. */
  datatype State = State(arena: Arena, out: map<nat, Grant>, lost: set<nat>)

  const EMPTY := State(Arena(map[], map[], 0, []), map[], {})

  predicate Apart(a: nat, m: nat, b: nat, n: nat) {
    a + m <= b || b + n <= a
  }

  /** What the handler's allocator promises about the address it returns. */
  predicate FreshBlock(a: Arena, base: nat, len: nat) {
    && base + len <= WORD
    && base !in a.blocks
    && forall b :: b in a.blocks ==> Apart(base, len, b, a.blocks[b].len)
  }

  datatype Allocation = Granted(arena: Arena, p: nat) | BadAlloc(arena: Arena)

  /** `allocate`, given the address that the handler's allocator returned. */
  function Allocated(a: Arena, size: nat, align: nat, base: nat): Allocation
    requires Alignment(align)
  {
    var taken := a.(blocks := a.blocks[base := Block(a.next, BlockLength(size, align))], next := a.next + 1);
    var p := AlignUp(base, align);
    AlignmentBound(align);
    if p - base + size <= Space(size, align) then
      Granted(taken.(mem := Stored(a.mem, p + size, Encode(p - base))), p)
    else
      BadAlloc(taken)
  }

  /** Giving a block back to the handler's allocator; `None` if there is no such block. */
  function Release(a: Arena, base: int, len: nat): Option<Arena> {
    if base >= 0 && base in a.blocks && a.blocks[base].len == len then
      Some(a.(blocks := a.blocks - {base}, freed := a.freed + [a.blocks[base].serial]))
    else
      None
  }

  /** `deallocate` of a non-null pointer. */
  function Deallocated(a: Arena, p: nat, size: nat, align: nat): Option<Arena>
    requires size + align > 0
  {
    Release(a, p - CellAt(a.mem, p + size), BlockLength(size, align))
  }

  /** `Take` asks for room for `n` objects of `sz` bytes, through the typed allocator. */
  datatype Op = Take(n: nat, sz: nat, align: nat, base: nat) | Write(p: nat, i: nat, b: byte) | Give(p: nat)

  /** The number of bytes asked for, as a `size_t`. */
  function Asked(want: nat): (size: nat)
    ensures size <= want && size < WORD && (size == want <==> want < WORD)
  {
    want % WORD
  }

  predicate TakeAllowed(s: State, want: nat, align: nat, base: nat) {
    Alignment(align) && FreshBlock(s.arena, base, BlockLength(Asked(want), align))
  }

  /** The client asks for any number of objects of any size and alignment, writes only to
      bytes it was granted, and gives back what it holds, with the size and alignment it
      asked for. */
  predicate Allowed(s: State, op: Op) {
    match op
    case Take(n, sz, align, base) => TakeAllowed(s, n * sz, align, base)
    case Write(p, i, _) => p in s.out && i < s.out[p].size
    case Give(p) => p in s.out && s.out[p].size + s.out[p].align > 0
  }

  /** `Threw` is `std::bad_alloc`; `Fault` is memory granted for objects, or a cell written
      behind them, that is not inside the block, or a release of something that is not a live
      block. */
  datatype Outcome = Next(state: State) | Threw(state: State) | Fault

  /** Asking for `want` bytes in all. */
  function Taken(s: State, want: nat, align: nat, base: nat): Outcome
    requires TakeAllowed(s, want, align, base)
  {
    var size := Asked(want);
    match Allocated(s.arena, size, align, base)
    case Granted(arena, p) =>
      if p + want + CELL <= base + BlockLength(size, align) then
        Next(s.(arena := arena, out := s.out[p := Grant(base, size, align)]))
      else
        Fault
    case BadAlloc(arena) => Threw(s.(arena := arena, lost := s.lost + {base}))
  }

  function Step(s: State, op: Op): Outcome
    requires Allowed(s, op)
  {
    match op
    case Take(n, sz, align, base) => Taken(s, n * sz, align, base)
    case Write(p, i, b) => Next(s.(arena := s.arena.(mem := s.arena.mem[p + i := b])))
    case Give(p) =>
      (match Deallocated(s.arena, p, s.out[p].size, s.out[p].align)
       case Some(arena) => Next(s.(arena := arena, out := s.out - {p}))
       case None => Fault)
  }

  /** The sum of size and alignment wraps around: `allocate` throws. */
  predicate TooLarge(want: nat, align: nat) {
    WORD < Asked(want) + align
  }

  /** That sum does not wrap around, but the number of bytes or the addition of the cell does:
      `allocate` goes on with a block that is too short. */
  predicate TooShort(want: nat, align: nat) {
    Asked(want) + align <= WORD < want + align + CELL
  }

  predicate Throws(op: Op) {
    op.Take? && TooLarge(op.n * op.sz, op.align)
  }

  predicate Overruns(op: Op) {
    op.Take? && TooShort(op.n * op.sz, op.align)
  }

  // ------------------------------------------------------------ the invariant

  predicate GrantHolds(a: Arena, p: nat, g: Grant) {
    && Alignment(g.align) && g.size + g.align - 1 + CELL < WORD
    && g.base <= p < g.base + g.align && Aligned(p, g.align)
    && g.base in a.blocks && a.blocks[g.base].len == g.size + g.align - 1 + CELL
    && Holds(a.mem, p + g.size, p - g.base)
  }

  predicate BlocksApart(a: Arena) {
    forall b, c :: b in a.blocks && c in a.blocks && b != c ==> Apart(b, a.blocks[b].len, c, a.blocks[c].len)
  }

  /** Every allocation made so far is either live or was freed, and none is freed twice. */
  predicate SerialsAccounted(a: Arena) {
    SerialsDistinct(a) && SerialsCovered(a)
  }

  predicate SerialsDistinct(a: Arena) {
    && (forall b :: b in a.blocks ==> a.blocks[b].serial < a.next && a.blocks[b].serial !in a.freed)
    && (forall b, c :: b in a.blocks && c in a.blocks && b != c ==> a.blocks[b].serial != a.blocks[c].serial)
    && (forall i, j :: 0 <= i < j < |a.freed| ==> a.freed[i] != a.freed[j])
    && (forall i :: 0 <= i < |a.freed| ==> a.freed[i] < a.next)
  }

  predicate SerialsCovered(a: Arena) {
    forall n: nat :: n < a.next ==> n in a.freed || exists b :: b in a.blocks && a.blocks[b].serial == n
  }

  /** The client's memory is what it was granted: one grant for each live block that is not
      lost. */
  predicate GrantsHold(s: State) {
    && (forall p :: p in s.out ==> GrantHolds(s.arena, p, s.out[p]))
    && (forall p, q :: p in s.out && q in s.out && p != q ==> s.out[p].base != s.out[q].base)
    && (forall p :: p in s.out ==> s.out[p].base !in s.lost)
    && (forall b :: b in s.arena.blocks && b !in s.lost ==> exists p :: p in s.out && s.out[p].base == b)
    && s.lost <= s.arena.blocks.Keys
  }

  predicate Inv(s: State) {
    GrantsHold(s) && BlocksApart(s.arena) && SerialsAccounted(s.arena)
  }

  /** The whole of a grant, with its cell, lies inside its block. */
  lemma GrantInside(a: Arena, p: nat, g: Grant)
    requires GrantHolds(a, p, g)
    ensures g.base in a.blocks && g.base <= p && p + g.size + CELL <= g.base + a.blocks[g.base].len
  {
  }

  /** A grant keeps holding when memory changes only outside its cell. */
  lemma GrantKept(a: Arena, a': Arena, p: nat, g: Grant)
    requires GrantHolds(a, p, g) && g.base in a'.blocks && a'.blocks[g.base] == a.blocks[g.base]
    requires forall x :: p + g.size <= x < p + g.size + CELL ==> ByteAt(a.mem, x) == ByteAt(a'.mem, x)
    ensures GrantHolds(a', p, g)
  {
  }

  /** No wrap-around: `allocate` always finds room, and leaves a grant that holds. */
  lemma TakeGrants(a: Arena, size: nat, align: nat, base: nat)
    requires Alignment(align) && size + align - 1 + CELL < WORD && FreshBlock(a, base, BlockLength(size, align))
    ensures var r := Allocated(a, size, align, base);
            r.Granted? && r.p == AlignUp(base, align) && GrantHolds(r.arena, r.p, Grant(base, size, align))
  {
    AlignmentBound(align);
    NoWrapLength(size, align);
    hide PowerOfTwo, Holds, Aligned, AlignUp, Encode, Stored, Space, BlockLength, FreshBlock;
    var p := AlignUp(base, align);
    HoldsStored(a.mem, p + size, p - base);
  }

  /** `allocate` throws exactly when its size computation wraps around, whatever the address;
      the block it had taken is then still live. */
  lemma AllocateThrowsIff(a: Arena, size: nat, align: nat, base: nat)
    requires Alignment(align) && size < WORD
    ensures Allocated(a, size, align, base).BadAlloc? <==> size + align - 1 >= WORD
    ensures base in Allocated(a, size, align, base).arena.blocks
  {
    AlignmentBound(align);
    SpaceRanges(size, align);
    hide AlignUp, PowerOfTwo, Space, BlockLength, Stored, Encode;
  }

  /** Room for objects that take `want` bytes is granted outside its block exactly when the
      size and alignment do not wrap around, and the number of bytes or the addition of the
      cell does. */
  lemma OverrunIff(a: Arena, want: nat, align: nat, base: nat)
    requires Alignment(align) && base + BlockLength(Asked(want), align) <= WORD
    ensures var r := Allocated(a, Asked(want), align, base);
            (r.Granted? && base + BlockLength(Asked(want), align) < r.p + want + CELL) <==> TooShort(want, align)
  {
    var size := Asked(want);
    LayoutFitsIff(base, size, align);
    AllocateThrowsIff(a, size, align, base);
    AlignmentBound(align);
    SpaceRanges(size, align);
    hide AlignUp, PowerOfTwo, Space, BlockLength, Stored, Encode;
  }

  /** The largest request of all is granted in a block of seven bytes. */
  lemma OverrunCanHappen(base: nat)
    requires base + 7 <= WORD
    ensures var r := Allocated(EMPTY.arena, WORD - 1, 1, base);
            Alignment(1) && BlockLength(WORD - 1, 1) == 7 && r.Granted? && r.p == base
  {
    AllocateThrowsIff(EMPTY.arena, WORD - 1, 1, base);
  }

  /** Room for 2^60 + 1 objects of sixteen bytes is granted in a block of thirty-nine. */
  lemma ManyObjectsOverrun(base: nat)
    requires base + 39 <= WORD
    ensures var n := WORD / 16 + 1;
            && Alignment(16) && Asked(n * 16) == 16 && BlockLength(16, 16) == 39
            && Allocated(EMPTY.arena, 16, 16, base).Granted? && TooShort(n * 16, 16)
  {
    Times16(1);
    AllocateThrowsIff(EMPTY.arena, 16, 16, base);
  }

  /** A request that throws leaves a block behind that nobody has: eight bytes are taken for
      the largest request with an alignment of two. */
  lemma ThrowLosesBlock(base: nat)
    requires base + 8 <= WORD
    ensures Alignment(2) && TakeAllowed(EMPTY, WORD - 1, 2, base)
    ensures var r := Taken(EMPTY, WORD - 1, 2, base);
            r.Threw? && r.state.out == map[] && r.state.lost == {base} && base in r.state.arena.blocks
  {
    Twice(1);
    AllocateThrowsIff(EMPTY.arena, WORD - 1, 2, base);
  }

  /** The rest of memory after `allocate`. */
  lemma TakeElsewhere(a: Arena, size: nat, align: nat, base: nat, x: int)
    requires Alignment(align) && Allocated(a, size, align, base).Granted?
    requires !(AlignUp(base, align) + size <= x < AlignUp(base, align) + size + CELL)
    ensures ByteAt(Allocated(a, size, align, base).arena.mem, x) == ByteAt(a.mem, x)
  {
    AlignmentBound(align);
    hide PowerOfTwo, AlignUp, Encode, Stored;
    var p := AlignUp(base, align);
    StoredAt(a.mem, p + size, Encode(p - base), x);
  }

  /** The other grants survive, and are elsewhere. */
  lemma TakeSpares(s: State, size: nat, align: nat, base: nat, q: nat)
    requires Inv(s) && q in s.out
    requires Alignment(align) && size + align - 1 + CELL < WORD && FreshBlock(s.arena, base, BlockLength(size, align))
    requires Allocated(s.arena, size, align, base).Granted?
    requires GrantHolds(Allocated(s.arena, size, align, base).arena, AlignUp(base, align), Grant(base, size, align))
    ensures GrantHolds(Allocated(s.arena, size, align, base).arena, q, s.out[q])
    ensures q != AlignUp(base, align) && s.out[q].base != base
  {
    hide GrantHolds, GrantsHold, PowerOfTwo, Allocated, AlignUp, BlockLength, SerialsAccounted, BlocksApart;
    var a, r, p, h := s.arena, Allocated(s.arena, size, align, base), AlignUp(base, align), s.out[q];
    HeldGrant(s, q);
    TakeEffect(a, size, align, base);
    GrantInside(r.arena, p, Grant(base, size, align));
    GrantInside(a, q, h);
    assert Apart(base, BlockLength(size, align), h.base, a.blocks[h.base].len);
    forall x | q + h.size <= x < q + h.size + CELL
      ensures ByteAt(a.mem, x) == ByteAt(r.arena.mem, x)
    {
      TakeElsewhere(a, size, align, base, x);
    }
    GrantKept(a, r.arena, q, h);
  }

  lemma TakeEffect(a: Arena, size: nat, align: nat, base: nat)
    requires Alignment(align)
    ensures var a' := Allocated(a, size, align, base).arena;
            && a'.blocks == a.blocks[base := Block(a.next, BlockLength(size, align))]
            && a'.next == a.next + 1 && a'.freed == a.freed
  {
  }

  lemma TakeKeeps(s: State, size: nat, align: nat, base: nat)
    requires Inv(s) && Alignment(align) && FreshBlock(s.arena, base, BlockLength(size, align))
    requires size + align - 1 + CELL < WORD
    ensures var r := Allocated(s.arena, size, align, base);
            r.Granted? && Inv(s.(arena := r.arena, out := s.out[r.p := Grant(base, size, align)]))
  {
    hide GrantsHold, SerialsAccounted, BlocksApart, GrantHolds, Allocated, PowerOfTwo, AlignUp, BlockLength;
    var g, len := Grant(base, size, align), BlockLength(size, align);
    TakeGrants(s.arena, size, align, base);
    TakeEffect(s.arena, size, align, base);
    var r := Allocated(s.arena, size, align, base);
    TakeHolds(s, size, align, base, s.(arena := r.arena, out := s.out[r.p := g]));
    TakeApart(s.arena, base, len, r.arena);
    TakeAccounts(s.arena, base, len, r.arena);
  }

  lemma LoseKeeps(s: State, size: nat, align: nat, base: nat)
    requires Inv(s) && Alignment(align) && FreshBlock(s.arena, base, BlockLength(size, align))
    requires Allocated(s.arena, size, align, base).BadAlloc?
    ensures Inv(s.(arena := Allocated(s.arena, size, align, base).arena, lost := s.lost + {base}))
  {
    var r, len := Allocated(s.arena, size, align, base), BlockLength(size, align);
    assert r.arena.mem == s.arena.mem;
    TakeEffect(s.arena, size, align, base);
    hide GrantsHold, SerialsAccounted, BlocksApart, Allocated, PowerOfTwo, AlignUp, BlockLength;
    LoseHolds(s, base, Block(s.arena.next, len), s.(arena := r.arena, lost := s.lost + {base}));
    TakeApart(s.arena, base, len, r.arena);
    TakeAccounts(s.arena, base, len, r.arena);
  }

  lemma LoseHolds(s: State, base: nat, block: Block, s': State)
    requires GrantsHold(s) && base !in s.arena.blocks && s'.out == s.out && s'.lost == s.lost + {base}
    requires s'.arena.mem == s.arena.mem && s'.arena.blocks == s.arena.blocks[base := block]
    ensures GrantsHold(s')
  {
    hide GrantHolds;
    forall p | p in s.out
      ensures GrantHolds(s'.arena, p, s.out[p]) && s.out[p].base != base
    {
      GrantInside(s.arena, p, s.out[p]);
      GrantKept(s.arena, s'.arena, p, s.out[p]);
    }
  }

  /** What `allocate` does to the whole state, whatever was asked for. */
  lemma TakeStep(s: State, want: nat, align: nat, base: nat)
    requires Inv(s) && TakeAllowed(s, want, align, base)
    ensures var r := Taken(s, want, align, base);
            && (r.Fault? <==> TooShort(want, align)) && (r.Threw? <==> TooLarge(want, align))
            && (!r.Fault? ==> Inv(r.state) && (r.state.lost == {} <==> s.lost == {} && !r.Threw?))
  {
    hide Inv, GrantHolds, Allocated, PowerOfTwo, AlignUp, BlockLength;
    var size := Asked(want);
    AllocateThrowsIff(s.arena, size, align, base);
    OverrunIff(s.arena, want, align, base);
    if want + align - 1 + CELL < WORD {
      TakeKeeps(s, size, align, base);
    } else if WORD <= size + align - 1 {
      LoseKeeps(s, size, align, base);
    }
  }

  lemma TakeHolds(s: State, size: nat, align: nat, base: nat, s': State)
    requires Inv(s)
    requires Alignment(align) && size + align - 1 + CELL < WORD && FreshBlock(s.arena, base, BlockLength(size, align))
    requires Allocated(s.arena, size, align, base).Granted?
    requires GrantHolds(Allocated(s.arena, size, align, base).arena, AlignUp(base, align), Grant(base, size, align))
    requires s'.arena == Allocated(s.arena, size, align, base).arena
    requires s'.out == s.out[AlignUp(base, align) := Grant(base, size, align)] && s'.lost == s.lost
    ensures GrantsHold(s')
  {
    hide SerialsAccounted, BlocksApart, GrantHolds, Allocated, Alignment, AlignUp, BlockLength;
    assert base !in s.arena.blocks && base !in s.lost;
    hide FreshBlock;
    TakeEffect(s.arena, size, align, base);
    forall q | q in s.out
      ensures GrantHolds(s'.arena, q, s.out[q]) && q != AlignUp(base, align) && s.out[q].base != base
    {
      TakeSpares(s, size, align, base, q);
    }
    TakeCovers(s, AlignUp(base, align), Grant(base, size, align), s');
  }

  lemma TakeApart(a: Arena, base: nat, len: nat, a': Arena)
    requires BlocksApart(a) && FreshBlock(a, base, len) && a'.blocks == a.blocks[base := Block(a.next, len)]
    ensures BlocksApart(a')
  {
  }

  lemma TakeCovers(s: State, p: nat, g: Grant, s': State)
    requires GrantsHold(s) && p !in s.out && s'.out == s.out[p := g] && s'.lost == s.lost
    requires s'.arena.blocks.Keys == s.arena.blocks.Keys + {g.base}
    ensures forall b :: b in s'.arena.blocks && b !in s'.lost ==> exists q :: q in s'.out && s'.out[q].base == b
  {
    hide GrantHolds;
    forall b | b in s'.arena.blocks && b !in s'.lost
      ensures exists q :: q in s'.out && s'.out[q].base == b
    {
      if b == g.base {
        assert s'.out[p].base == b;
      } else {
        var q :| q in s.out && s.out[q].base == b;
        assert s'.out[q].base == b;
      }
    }
  }

  lemma TakeAccounts(a: Arena, base: nat, len: nat, a': Arena)
    requires SerialsAccounted(a) && base !in a.blocks
    requires a'.blocks == a.blocks[base := Block(a.next, len)] && a'.next == a.next + 1 && a'.freed == a.freed
    ensures SerialsAccounted(a')
  {
    TakeDistinct(a, base, len, a');
    hide SerialsDistinct;
    forall n: nat | n < a'.next
      ensures n in a'.freed || exists b :: b in a'.blocks && a'.blocks[b].serial == n
    {
      if n == a.next {
        assert a'.blocks[base].serial == n;
      } else if n !in a.freed {
        var b :| b in a.blocks && a.blocks[b].serial == n;
        assert a'.blocks[b].serial == n;
      }
    }
  }

  lemma TakeDistinct(a: Arena, base: nat, len: nat, a': Arena)
    requires SerialsDistinct(a) && base !in a.blocks
    requires a'.blocks == a.blocks[base := Block(a.next, len)] && a'.next == a.next + 1 && a'.freed == a.freed
    ensures SerialsDistinct(a')
  {
  }

  lemma WriteKeeps(s: State, p: nat, i: nat, b: byte)
    requires Inv(s) && Allowed(s, Write(p, i, b))
    ensures Inv(Step(s, Write(p, i, b)).state)
  {
    hide GrantHolds, SerialsAccounted, Allocated, Deallocated;
    var a, a' := s.arena, s.arena.(mem := s.arena.mem[p + i := b]);
    GrantInside(a, p, s.out[p]);
    forall q | q in s.out
      ensures GrantHolds(a', q, s.out[q])
    {
      var h := s.out[q];
      GrantInside(a, q, h);
      if q != p {
        assert Apart(h.base, a.blocks[h.base].len, s.out[p].base, a.blocks[s.out[p].base].len);
      }
      GrantKept(a, a', q, h);
    }
    SameAccounts(a, a');
  }

  lemma SameAccounts(a: Arena, a': Arena)
    requires SerialsAccounted(a) && a'.blocks == a.blocks && a'.next == a.next && a'.freed == a.freed
    ensures SerialsAccounted(a')
  {
  }

  /** Whatever was written to the user's bytes, the cell leads back to the block. */
  lemma GiveFindsBlock(a: Arena, p: nat, g: Grant)
    requires GrantHolds(a, p, g)
    ensures g.size + g.align > 0 && g.base in a.blocks
    ensures Deallocated(a, p, g.size, g.align) ==
            Some(a.(blocks := a.blocks - {g.base}, freed := a.freed + [a.blocks[g.base].serial]))
  {
    hide PowerOfTwo, CellAt, Holds, Aligned, BlockLength;
    AlignmentBound(g.align);
    HoldsRead(a.mem, p + g.size, p - g.base);
    NoWrapLength(g.size, g.align);
  }

  lemma HeldGrant(s: State, p: nat)
    requires GrantsHold(s) && p in s.out
    ensures GrantHolds(s.arena, p, s.out[p])
  {
  }

  lemma GiveKeeps(s: State, p: nat)
    requires Inv(s) && Allowed(s, Give(p))
    ensures Step(s, Give(p)).Next? && Inv(Step(s, Give(p)).state) && Step(s, Give(p)).state.lost == s.lost
  {
    hide GrantsHold, SerialsAccounted, BlocksApart, Deallocated, GrantHolds, Allocated;
    var a, g := s.arena, s.out[p];
    HeldGrant(s, p);
    GiveFindsBlock(a, p, g);
    var a' := a.(blocks := a.blocks - {g.base}, freed := a.freed + [a.blocks[g.base].serial]);
    GiveSpares(s, p, s.(arena := a', out := s.out - {p}));
    GiveApart(a, g.base, a');
    GiveAccounts(a, g.base, a');
  }

  lemma GiveApart(a: Arena, base: nat, a': Arena)
    requires BlocksApart(a) && a'.blocks == a.blocks - {base}
    ensures BlocksApart(a')
  {
  }

  lemma GiveSpares(s: State, p: nat, s': State)
    requires GrantsHold(s) && p in s.out && s'.out == s.out - {p} && s'.lost == s.lost
    requires s'.arena.mem == s.arena.mem && s'.arena.blocks == s.arena.blocks - {s.out[p].base}
    ensures GrantsHold(s')
  {
    hide GrantHolds;
    forall q | q in s'.out
      ensures GrantHolds(s'.arena, q, s'.out[q])
    {
      GrantInside(s.arena, q, s.out[q]);
      GrantKept(s.arena, s'.arena, q, s.out[q]);
    }
    forall b | b in s'.arena.blocks && b !in s'.lost
      ensures exists q :: q in s'.out && s'.out[q].base == b
    {
      var q :| q in s.out && s.out[q].base == b;
      assert s'.out[q].base == b;
    }
  }

  lemma GiveAccounts(a: Arena, base: nat, a': Arena)
    requires SerialsAccounted(a) && base in a.blocks
    requires a'.blocks == a.blocks - {base} && a'.next == a.next && a'.freed == a.freed + [a.blocks[base].serial]
    ensures SerialsAccounted(a')
  {
    GiveDistinct(a, base, a');
    hide SerialsDistinct;
    forall n: nat | n < a'.next
      ensures n in a'.freed || exists b :: b in a'.blocks && a'.blocks[b].serial == n
    {
      if n in a.freed {
        assert n in a'.freed;
      } else {
        var b :| b in a.blocks && a.blocks[b].serial == n;
        if b == base { assert a'.freed[|a.freed|] == n; } else { assert a'.blocks[b].serial == n; }
      }
    }
  }

  lemma GiveDistinct(a: Arena, base: nat, a': Arena)
    requires SerialsDistinct(a) && base in a.blocks
    requires a'.blocks == a.blocks - {base} && a'.next == a.next && a'.freed == a.freed + [a.blocks[base].serial]
    ensures SerialsDistinct(a')
  {
  }

  // ------------------------------------------------------------ every run

  predicate AllowedRun(s: State, ops: seq<Op>)
    decreases |ops|
  {
    ops == [] ||
    (Allowed(s, ops[0]) && (Step(s, ops[0]).Fault? || AllowedRun(Step(s, ops[0]).state, ops[1..])))
  }

  function Run(s: State, ops: seq<Op>): Outcome
    requires AllowedRun(s, ops)
    decreases |ops|
  {
    if ops == [] then Next(s)
    else if Step(s, ops[0]).Fault? then Fault
    else Run(Step(s, ops[0]).state, ops[1..])
  }

  predicate SomeOverruns(ops: seq<Op>) {
    exists i :: 0 <= i < |ops| && Overruns(ops[i])
  }

  predicate NoneThrows(ops: seq<Op>) {
    forall i :: 0 <= i < |ops| ==> !Throws(ops[i])
  }

  lemma StepKeeps(s: State, op: Op)
    requires Inv(s) && Allowed(s, op)
    ensures Step(s, op).Fault? <==> Overruns(op)
    ensures Step(s, op).Threw? <==> Throws(op)
    ensures !Overruns(op) ==> Inv(Step(s, op).state)
    ensures !Overruns(op) ==> (Step(s, op).state.lost == {} <==> s.lost == {} && !Throws(op))
  {
    match op
    case Take(n, sz, align, base) =>
      TakeStep(s, n * sz, align, base);
      hide Inv, Taken;
    case Write(p, i, b) =>
      WriteKeeps(s, p, i, b);
    case Give(p) =>
      GiveKeeps(s, p);
      hide Inv, Deallocated;
  }

  /** Over every interleaving, whatever is asked for: every release finds exactly the block
      that was taken, and all memory granted lies in its block, exactly when no request is one
      that `Overruns`.  A block is lost exactly when some `allocate` threw. */
  lemma {:induction false} RunIsSafe(s: State, ops: seq<Op>)
    requires Inv(s) && AllowedRun(s, ops)
    ensures Run(s, ops).Fault? <==> SomeOverruns(ops)
    ensures !Run(s, ops).Fault? ==>
              && Run(s, ops).Next? && Inv(Run(s, ops).state)
              && (Run(s, ops).state.lost == {} <==> s.lost == {} && NoneThrows(ops))
    decreases |ops|
  {
    if ops != [] {
      hide Inv, Step, Allowed, Overruns, Throws;
      StepKeeps(s, ops[0]);
      FirstOrLater(ops);
      hide SomeOverruns, NoneThrows;
      if !Overruns(ops[0]) {
        RunIsSafe(Step(s, ops[0]).state, ops[1..]);
      }
    }
  }

  lemma FirstOrLater(ops: seq<Op>)
    requires ops != []
    ensures SomeOverruns(ops) <==> Overruns(ops[0]) || SomeOverruns(ops[1..])
    ensures NoneThrows(ops) <==> !Throws(ops[0]) && NoneThrows(ops[1..])
  {
    hide Overruns, Throws;
    var rest := ops[1..];
    assert forall i :: 0 < i < |ops| ==> ops[i] == rest[i - 1];
    assert forall i :: 0 <= i < |rest| ==> rest[i] == ops[i + 1];
  }

  /** All memory in the client's hands, with the hidden cells, is pairwise disjoint. */
  lemma GrantsApart(s: State, p: nat, q: nat)
    requires Inv(s) && p in s.out && q in s.out && p != q
    ensures Apart(p, s.out[p].size + CELL, q, s.out[q].size + CELL)
  {
    hide GrantHolds, SerialsAccounted;
    GrantInside(s.arena, p, s.out[p]);
    GrantInside(s.arena, q, s.out[q]);
    assert Apart(s.out[p].base, s.arena.blocks[s.out[p].base].len, s.out[q].base, s.arena.blocks[s.out[q].base].len);
  }

  /** Once the client has given everything back, every block ever taken has been freed, none
      of them twice, except those that an `allocate` which threw had taken. */
  lemma AllFreedOnce(ops: seq<Op>)
    requires AllowedRun(EMPTY, ops) && !Run(EMPTY, ops).Fault?
    ensures var s := Run(EMPTY, ops).state;
            && (forall i, j :: 0 <= i < j < |s.arena.freed| ==> s.arena.freed[i] != s.arena.freed[j])
            && (s.out == map[] ==> s.arena.blocks.Keys == s.lost)
            && (s.out == map[] && NoneThrows(ops) ==>
                  s.arena.blocks == map[] && forall n: nat :: n < s.arena.next ==> n in s.arena.freed)
  {
    RunIsSafe(EMPTY, ops);
    hide Run, AllowedRun, NoneThrows;
    var s := Run(EMPTY, ops).state;
    if s.out == map[] {
      assert forall b :: b in s.arena.blocks ==> b in s.lost;
    }
  }

  // ------------------------------------------------------------ the byte-level code

  class HandlerMemory {
    var mem: Memory
    var blocks: map<nat, Block>
    var next: nat
    var freed: seq<nat>

    ghost function View(): Arena
      reads this
    {
      Arena(mem, blocks, next, freed)
    }

    /** `allocate`, where `base` is what the handler's allocator answers; `None` stands for
        `std::bad_alloc`. */
    method Allocate(size: size_t, align: size_t, base: nat) returns (r: Option<nat>)
      requires Alignment(align as int)
      requires FreshBlock(View(), base, BlockLength(size as int, align as int))
      modifies this
      ensures match Allocated(old(View()), size as int, align as int, base)
              case Granted(a, p) => View() == a && r == Some(p)
              case BadAlloc(a) => View() == a && r == None
    {
      AlignmentBound(align as int);
      hide PowerOfTwo, AlignUp, Digits;
      var space := (size as int + align as int - 1) % WORD;
      blocks := blocks[base := Block(next, (space + CELL) % WORD)];
      next := next + 1;
      var p := AlignUp(base, align as int);
      if p - base + size as int <= space {
        StoreBytes(p + size as int, Encode(p - base));
        r := Some(p);
      } else {
        r := None;
      }
    }

    /** `allocate` of the typed allocator: `sizeof(T) * n` wraps around unnoticed. */
    method AllocateObjects(n: size_t, sz: size_t, align: size_t, base: nat) returns (r: Option<nat>)
      requires Alignment(align as int)
      requires FreshBlock(View(), base, BlockLength(Asked(n as int * sz as int), align as int))
      modifies this
      ensures match Allocated(old(View()), Asked(n as int * sz as int), align as int, base)
              case Granted(a, p) => View() == a && r == Some(p)
              case BadAlloc(a) => View() == a && r == None
    {
      hide Allocated, BlockLength, PowerOfTwo;
      var size := Asked(n as int * sz as int) as size_t;
      r := Allocate(size, align, base);
    }

    /** `memcpy` into memory, byte by byte. */
    method StoreBytes(a: int, s: seq<byte>)
      modifies this`mem
      ensures mem == Stored(old(mem), a, s)
    {
      for i := 0 to |s|
        invariant Stored(mem, a + i, s[i..]) == Stored(old(mem), a, s)
      {
        assert s[i..][1..] == s[i + 1..];
        mem := mem[a + i := s[i]];
      }
      assert s[|s|..] == [];
    }

    /** `memcpy` out of memory. */
    method LoadBytes(a: int, n: nat) returns (s: seq<byte>)
      ensures s == BytesAt(mem, a, a + n)
    {
      s := [];
      for i := 0 to n
        invariant s + BytesAt(mem, a + i, a + n) == BytesAt(mem, a, a + n)
      {
        ghost var rest := BytesAt(mem, a + i + 1, a + n);
        assert s + ([ByteAt(mem, a + i)] + rest) == (s + [ByteAt(mem, a + i)]) + rest;
        s := s + [ByteAt(mem, a + i)];
      }
    }

    /** `deallocate`: a null pointer is ignored; otherwise `found` says whether what was
        released was a live block of the right length. */
    method Deallocate(p: Option<nat>, size: size_t, align: size_t) returns (found: bool)
      requires size as int + align as int > 0
      modifies this
      ensures p.None? ==> found && View() == old(View())
      ensures p.Some? ==>
                match Deallocated(old(View()), p.value, size as int, align as int)
                case Some(a) => found && View() == a
                case None => !found && View() == old(View())
    {
      found := true;
      if p.Some? {
        hide Decode;
        var cell := LoadBytes(p.value + size as int, CELL);
        var base := p.value - Decode(cell);
        var len := ((size as int + align as int - 1) % WORD + CELL) % WORD;
        if base >= 0 && base in blocks && blocks[base].len == len {
          freed := freed + [blocks[base].serial];
          blocks := blocks - {base};
        } else {
          found := false;
        }
      }
    }
  }
}
