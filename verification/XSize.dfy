/** SizeT computations that saturate instead of wrapping around: xsize.h for a size_t of 64 bits. */
module XSize {
  import opened Arithmetic
  import opened Wrappers

  const SIZE_MAX: nat := 0xffff_ffff_ffff_ffff

  type SizeT = n: nat | n <= SIZE_MAX

  /** xsum: the machine's sum wraps around, and a sum that is too small shows it. */
  function Xsum(size1: SizeT, size2: SizeT): (r: SizeT)
    ensures r == Min(size1 + size2, SIZE_MAX)
  {
    var sum := (size1 + size2) % (SIZE_MAX + 1);
    if sum >= size1 then sum else SIZE_MAX
  }

  function Xsum4(size1: SizeT, size2: SizeT, size3: SizeT, size4: SizeT): (r: SizeT)
    ensures r == Min(size1 + size2 + size3 + size4, SIZE_MAX)
  {
    Xsum(Xsum(Xsum(size1, size2), size3), size4)
  }

  function Xmax(size1: SizeT, size2: SizeT): (r: SizeT)
    ensures r == Max(size1, size2)
  {
    if size1 >= size2 then size1 else size2
  }

  /** xtimes: the count is compared with a quotient, so that the product never wraps around. */
  function Xtimes(n: SizeT, elsize: SizeT): (r: SizeT)
    requires elsize > 0
    ensures r == Min(n * elsize, SIZE_MAX)
  {
    FactorFits(n, elsize, SIZE_MAX);
    if n <= SIZE_MAX / elsize then n * elsize else SIZE_MAX
  }
}
