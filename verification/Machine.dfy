/** Machine words, the option type and the ACPI header sizes shared by the models. */
module Machine {
  const U8: nat := 0x100
  const U32: nat := 0x1_0000_0000
  const U64: nat := 0x1_0000_0000_0000_0000

  /** Bytes of an ACPI header: up to the length, and of a description table. */
  const COMMON_HEADER_SIZE: nat := 8
  const DESCRIPTION_HEADER_SIZE: nat := 36

  type Byte = x: nat | x < 0x100

  datatype Option<+T> = None | Some(value: T)

  /** Bitwise and on naturals. */
  function And(x: nat, y: nat): nat {
    if x == 0 || y == 0 then 0 else 2 * And(x / 2, y / 2) + (x % 2) * (y % 2)
  }

  /** The bits of `x` that `y` does not have. */
  function AndNot(x: nat, y: nat): nat {
    if x == 0 then 0 else 2 * AndNot(x / 2, y / 2) + (x % 2) * (1 - y % 2)
  }

  /** Each bit of `x` is in one of the two. */
  lemma {:induction false} AndSplits(x: nat, y: nat)
    ensures And(x, y) + AndNot(x, y) == x
  {
    if x > 0 {
      AndSplits(x / 2, y / 2);
      if y == 0 {
        assert And(x / 2, y / 2) == 0;
      }
    }
  }

  lemma {:induction false} ModMultiple(k: int, y: int, m: nat)
    requires m > 0
    ensures (m * k + y) % m == y % m
    decreases if k < 0 then -k else k
  {
    if k > 0 {
      ModMultiple(k - 1, y, m);
      assert (m * (k - 1) + y + m) % m == (m * (k - 1) + y) % m by {
        ModShift(m * (k - 1) + y, m);
      }
      assert m * k + y == m * (k - 1) + y + m;
    } else if k < 0 {
      ModMultiple(k + 1, y, m);
      ModShift(m * k + y, m);
      assert m * (k + 1) + y == m * k + y + m;
    }
  }

  lemma {:induction false} MulAtLeast(k: int, m: nat)
    requires k >= 1
    ensures k * m >= m
  {
    if k > 1 {
      MulAtLeast(k - 1, m);
      assert k * m == (k - 1) * m + m;
    }
  }

  /** Quotient and remainder are unique. */
  lemma DivModUnique(x: int, q: int, r: nat, m: nat)
    requires m > 0 && r < m && x == q * m + r
    ensures x / m == q && x % m == r
  {
    var q0, r0 := x / m, x % m;
    assert x == q0 * m + r0;
    assert (q - q0) * m == r0 - r && (q0 - q) * m == r - r0;
    if q > q0 {
      MulAtLeast(q - q0, m);
    } else if q < q0 {
      MulAtLeast(q0 - q, m);
    }
  }

  lemma ModShift(x: int, m: nat)
    requires m > 0
    ensures (x + m) % m == x % m
  {
    assert x + m == (x / m + 1) * m + x % m;
    DivModUnique(x + m, x / m + 1, x % m, m);
  }

  /** Reducing early changes nothing. */
  lemma ModAdd(x: int, y: int, m: nat)
    requires m > 0
    ensures (x % m + y) % m == (x + y) % m
  {
    ModMultiple(x / m, x % m + y, m);
    assert m * (x / m) + (x % m + y) == x + y;
  }

  lemma ModAddBoth(x: int, y: int, m: nat)
    requires m > 0
    ensures (x % m + y % m) % m == (x + y) % m
  {
    ModAdd(x, y % m, m);
    ModAdd(y, x, m);
  }
}
