/** Machine-level types shared by the components. */
module Machine {
  const SIZE_MAX: int := 0xFFFF_FFFF_FFFF_FFFF

  /** `std::size_t` on a 64-bit target.  Every arithmetic operation on it carries the
      obligation that it does not wrap. */
  newtype size_t = x: int | 0 <= x <= 0xFFFF_FFFF_FFFF_FFFF

  type byte = x: int | 0 <= x < 256

  datatype Option<+T> = None | Some(value: T)

  /** `traits_type::int_type`: a character or the end-of-file marker. */
  datatype IntType = Eof | Char(c: byte)

  function MinInt(a: int, b: int): int { if a < b then a else b }

  function MaxInt(a: int, b: int): int { if a < b then b else a }
}
