// Shared vocabulary: optional results, page size, 64-bit wrap-around and alignment.

module Options {
  datatype Option<+T> = None | Some(value: T)
}

module Paging {
  const PAGE_SIZE: nat := 4096
  const TWO64: nat := 0x1_0000_0000_0000_0000

  // ALIGN_UP for the power-of-two alignments the kernel uses.
  function AlignUp(x: nat, align: nat): (r: nat)
    requires align > 0
    ensures x <= r < x + align && r % align == 0
  {
    AlignUpMultiple(x, align);
    (x + align - 1) / align * align
  }

  lemma AlignUpMultiple(x: nat, align: nat)
    requires align > 0
    ensures var r := (x + align - 1) / align * align; x <= r < x + align && r % align == 0
  {
    var q, m := (x + align - 1) / align, (x + align - 1) % align;
    assert x + align - 1 == q * align + m;
    MultipleMod(q, align);
  }

  lemma MultipleMod(q: nat, n: nat)
    requires n > 0
    ensures q * n % n == 0
  {
    var d := q - q * n / n;
    assert d * n == q * n % n;
    assert d >= 1 ==> d * n >= n;
    assert d <= -1 ==> d * n + n <= 0;
  }
}
