/** How a completion handler hands out over-aligned memory: the block it takes from its own
    allocator is larger than asked for, and the distance back to the start of the block is
    kept in the bytes right behind the user's. */
module AlignedBlocks {
  import opened Machine

  const WORD: int := 0x1_0000_0000_0000_0000
  const HALF: int := 0x8000_0000_0000_0000

  /** `sizeof(std::ptrdiff_t)`. */
  const CELL: nat := 8

  type Memory = map<int, byte>

  function ByteAt(mem: Memory, a: int): byte {
    if a in mem then mem[a] else 0
  }

  /** The bytes from `lo` up to, but not including, `hi`. */
  function BytesAt(mem: Memory, lo: int, hi: int): (s: seq<byte>)
    requires lo <= hi
    ensures |s| == hi - lo
    decreases hi - lo
  {
    if lo == hi then [] else [ByteAt(mem, lo)] + BytesAt(mem, lo + 1, hi)
  }

  function Stored(mem: Memory, a: int, s: seq<byte>): Memory
    decreases |s|
  {
    if s == [] then mem else Stored(mem[a := s[0]], a + 1, s[1..])
  }

  lemma {:induction false} StoredAt(mem: Memory, a: int, s: seq<byte>, x: int)
    ensures ByteAt(Stored(mem, a, s), x) == if a <= x < a + |s| then s[x - a] else ByteAt(mem, x)
    decreases |s|
  {
    if s != [] {
      StoredAt(mem[a := s[0]], a + 1, s[1..], x);
    }
  }

  // ------------------------------------------------------------ the offset cell

  /** The object representation of an offset: least significant byte first. */
  function Digits(v: nat, n: nat): (s: seq<byte>)
    ensures |s| == n
  {
    if n == 0 then [] else [v % 256] + Digits(v / 256, n - 1)
  }

  function Value(s: seq<byte>): nat {
    if s == [] then 0 else s[0] + 256 * Value(s[1..])
  }

  function Pow256(n: nat): nat {
    if n == 0 then 1 else 256 * Pow256(n - 1)
  }

  lemma {:induction false} DigitsValue(v: nat, n: nat)
    requires v < Pow256(n)
    ensures Value(Digits(v, n)) == v
    decreases n
  {
    if n > 0 {
      DigitsValue(v / 256, n - 1);
      assert Digits(v, n)[1..] == Digits(v / 256, n - 1);
    }
  }

  predicate PtrDiff(off: int) {
    -HALF <= off < HALF
  }

  function Encode(off: int): (s: seq<byte>)
    requires PtrDiff(off)
    ensures |s| == CELL
  {
    Digits(if off < 0 then off + WORD else off, CELL)
  }

  function Decode(s: seq<byte>): int {
    var v := Value(s);
    if v < HALF then v else v - WORD
  }

  lemma CellRoundTrip(off: int)
    requires PtrDiff(off)
    ensures Decode(Encode(off)) == off
  {
    assert Pow256(8) == WORD by {
      assert Pow256(1) == 256 && Pow256(2) == 0x1_0000 && Pow256(4) == 256 * (256 * Pow256(2));
      assert Pow256(6) == 256 * (256 * Pow256(4)) && Pow256(8) == 256 * (256 * Pow256(6));
    }
    DigitsValue(if off < 0 then off + WORD else off, CELL);
  }

  /** The offset kept at an address. */
  function CellAt(mem: Memory, a: int): int {
    Decode(BytesAt(mem, a, a + CELL))
  }

  lemma {:induction false} BytesRead(m: Memory, a: int, s: seq<byte>)
    requires forall x :: a <= x < a + |s| ==> ByteAt(m, x) == s[x - a]
    ensures BytesAt(m, a, a + |s|) == s
    decreases |s|
  {
    if s != [] { BytesRead(m, a + 1, s[1..]); }
  }

  /** The bytes from `a` on are the representation of an offset. */
  predicate Holds(mem: Memory, a: int, off: int) {
    PtrDiff(off) && forall i :: 0 <= i < CELL ==> ByteAt(mem, a + i) == Encode(off)[i]
  }

  /** What was stored is there, and is left alone by changes elsewhere. */
  lemma HoldsStored(m: Memory, a: int, off: int)
    requires PtrDiff(off)
    ensures Holds(Stored(m, a, Encode(off)), a, off)
  {
    var s := Encode(off);
    hide Encode, Stored;
    forall i | 0 <= i < CELL
      ensures ByteAt(Stored(m, a, s), a + i) == s[i]
    {
      StoredAt(m, a, s, a + i);
    }
  }

  /** What is there is what is read. */
  lemma HoldsRead(m: Memory, a: int, off: int)
    requires Holds(m, a, off)
    ensures CellAt(m, a) == off
  {
    var s := Encode(off);
    CellRoundTrip(off);
    hide Encode, Decode, BytesAt;
    forall x | a <= x < a + |s|
      ensures ByteAt(m, x) == s[x - a]
    {
      assert ByteAt(m, a + (x - a)) == s[x - a];
    }
    BytesRead(m, a, s);
  }

  // ------------------------------------------------------------ the layout

  lemma AtLeastOnce(a: nat, k: int)
    requires a > 0
    ensures k >= 1 ==> a * k >= a
    ensures k <= 0 ==> a * k <= 0
  {
  }

  lemma SameQuotient(a: nat, q: int, q': int, r: nat, r': nat)
    requires r < a && r' < a && a * q + r == a * q' + r'
    ensures q == q' && r == r'
  {
    assert a * (q - q') == r' - r;
    AtLeastOnce(a, q - q');
    AtLeastOnce(a, q' - q);
  }

  lemma Multiple(a: nat, k: nat)
    requires a > 0
    ensures (a * k) % a == 0
  {
    var n := a * k;
    SameQuotient(a, n / a, k, n % a, 0);
  }

  lemma NextMultiple(a: nat, d: nat, q: nat)
    requires a > 0 && q % a == 0 && a * d < q
    ensures a * (d + 1) <= q
  {
    var e := q / a;
    assert q == a * e;
    assert a * (e - d) == q - a * d;
    AtLeastOnce(a, e - d);
  }

  /** The first address from `base` on that is a multiple of `align`. */
  function AlignUp(base: nat, align: nat): (p: nat)
    requires align > 0
    ensures base <= p < base + align && Aligned(p, align)
  {
    var d, r := base / align, base % align;
    assert base == align * d + r;
    if r == 0 then base
    else
      Multiple(align, d + 1);
      assert align * (d + 1) == align * d + align;
      align * (d + 1)
  }

  predicate Aligned(p: nat, align: nat)
    requires align > 0
  {
    p % align == 0
  }

  /** It is the first one, as `std::align` promises. */
  lemma AlignUpIsFirst(base: nat, align: nat, q: nat)
    requires align > 0 && base <= q && Aligned(q, align)
    ensures AlignUp(base, align) <= q
  {
    var d := base / align;
    assert base == align * d + base % align;
    if base % align != 0 {
      NextMultiple(align, d, q);
    }
  }

  predicate PowerOfTwo(a: nat) {
    a == 1 || (a > 0 && a % 2 == 0 && PowerOfTwo(a / 2))
  }

  /** What the language asks of an alignment that is a `size_t`. */
  predicate Alignment(a: nat) {
    0 < a < WORD && PowerOfTwo(a)
  }

  lemma {:induction false} NoPowerBetween(a: nat, b: nat)
    requires PowerOfTwo(a) && PowerOfTwo(b) && a < 2 * b
    ensures a <= b
    decreases b
  {
    if a > 1 && b > 1 { NoPowerBetween(a / 2, b / 2); }
  }

  lemma Twice(b: nat)
    requires b > 0 && PowerOfTwo(b)
    ensures PowerOfTwo(2 * b)
  {
  }

  lemma Times16(b: nat)
    requires b > 0 && PowerOfTwo(b)
    ensures PowerOfTwo(16 * b)
  {
    hide PowerOfTwo;
    Twice(b);
    Twice(2 * b);
    Twice(4 * b);
    Twice(8 * b);
  }

  lemma Times256(b: nat)
    requires b > 0 && PowerOfTwo(b)
    ensures PowerOfTwo(256 * b)
  {
    hide PowerOfTwo;
    Times16(b);
    Times16(16 * b);
  }

  lemma AlignmentBound(a: nat)
    requires Alignment(a)
    ensures 0 < a <= HALF
  {
    Times256(0x80);
    Times256(0x8000);
    Times256(0x80_0000);
    Times256(0x8000_0000);
    Times256(0x80_0000_0000);
    Times256(0x8000_0000_0000);
    Times256(0x80_0000_0000_0000);
    NoPowerBetween(a, HALF);
  }

  /** `size + align_size - 1`, as a `size_t`. */
  function Space(size: nat, align: nat): nat
    requires size + align > 0
  {
    (size + align - 1) % WORD
  }

  /** The length asked of the handler's allocator, as a `size_t`. */
  function BlockLength(size: nat, align: nat): nat
    requires size + align > 0
  {
    (Space(size, align) + CELL) % WORD
  }

  /** The two sums, in the three ranges of the exact one. */
  lemma SpaceRanges(size: nat, align: nat)
    requires 0 < align <= HALF && size < WORD
    ensures var sum := size + align - 1;
            && Space(size, align) == (if sum < WORD then sum else sum - WORD)
            && (sum + CELL < WORD ==> BlockLength(size, align) == sum + CELL)
            && (sum < WORD <= sum + CELL ==> BlockLength(size, align) == sum + CELL - WORD)
  {
  }

  lemma NoWrapLength(size: nat, align: nat)
    requires align > 0 && size + align - 1 + CELL < WORD
    ensures Space(size, align) == size + align - 1
    ensures BlockLength(size, align) == size + align - 1 + CELL
  {
  }

  /** The user's bytes and the cell behind them lie inside the block, for every base address,
      exactly when the length did not wrap around. */
  lemma LayoutFitsIff(base: nat, size: nat, align: nat)
    requires Alignment(align) && size < WORD && base + BlockLength(size, align) <= WORD
    ensures var p := AlignUp(base, align);
            (p - base + size <= Space(size, align) && p + size + CELL <= base + BlockLength(size, align)) <==>
            size + align - 1 + CELL < WORD
  {
    AlignmentBound(align);
    SpaceRanges(size, align);
    hide AlignUp, PowerOfTwo, Space, BlockLength;
  }
}
