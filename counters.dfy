// Value-level view of a Table64: the machine integer types the table uses,
// the size of a table for a context size k, and the table's cells as a
// sequence together with what update, count_empty and max_tbl_val compute
// on it. The class in tbl64.dfy is proved against these functions.
module Counters {

  /** The source's fixed-width unsigned types. */
  newtype u8 = x: int | 0 <= x < 0x100
  newtype u32 = x: int | 0 <= x < 0x1_0000_0000
  newtype u64 = x: int | 0 <= x < 0x1_0000_0000_0000_0000

  const TWO_TO_64: nat := 0x1_0000_0000_0000_0000
  const U64_MAX: u64 := 0xFFFF_FFFF_FFFF_FFFF

  /** `++c` on a u64 counter: adds one modulo 2^64. */
  function Inc64(c: u64): (r: u64)
    ensures r as int == (c as int + 1) % TWO_TO_64
    ensures r == 0 <==> c == U64_MAX
  {
    if c == U64_MAX then 0 else c + 1
  }

  function Pow4(n: nat): (r: nat)
  {
    if n == 0 then 1 else 4 * Pow4(n - 1)
  }

  function Pow2(n: nat): (r: nat)
  {
    if n == 0 then 1 else 2 * Pow2(n - 1)
  }

  /** Number of cells in a table for context size k: 4^(k+1), one cell per
    * integer context. */
  function TableSize(k: u8): (r: nat)
    ensures r >= 4
    ensures r % 4 == 0
  {
    Pow4Positive(k as nat);
    4 * Pow4(k as nat)
  }

  lemma {:induction false} Pow4Positive(n: nat)
    ensures Pow4(n) >= 1
  {
    if n > 0 { Pow4Positive(n - 1); }
  }

  lemma {:induction false} Pow2Twice(n: nat)
    ensures Pow2(2 * n) == Pow4(n)
  {
    if n > 0 {
      Pow2Twice(n - 1);
      assert Pow2(2 * n) == 4 * Pow2(2 * (n - 1));
    }
  }

  /** `x << s` on a u64 for a shift count below 64: the bits shifted out of
    * the top are discarded. */
  function Shl64(x: u64, s: nat): (r: u64)
    requires s < 64
  {
    ((x as int * Pow2(s)) % TWO_TO_64) as u64
  }

  /** The size the constructor requests, as written: `4ull << (k << 1)`.
    * A shift count of 64 or more is undefined behaviour in C++, hence the
    * precondition. */
  function ShiftedSize(k: u8): (r: u64)
    requires k < 32
    ensures r as int == (4 * Pow4(k as nat)) % TWO_TO_64
  {
    Pow2Twice(k as nat);
    Shl64(4, 2 * k as nat)
  }

  lemma {:induction false} Pow4Add(a: nat, b: nat)
    ensures Pow4(a + b) == Pow4(a) * Pow4(b)
  {
    if b > 0 {
      Pow4Add(a, b - 1);
      assert Pow4(a + b) == 4 * Pow4(a + b - 1);
    }
  }

  /** 4^31 == 2^62, so that 4 * 4^31 == 2^64. */
  lemma Pow4At31()
    ensures Pow4(31) * 4 == TWO_TO_64
  {
    assert Pow4(10) == 0x10_0000;
    Pow4Add(10, 10);
    Pow4Add(20, 11);
    assert Pow4(11) == 0x40_0000;
  }

  lemma {:induction false} Pow4Monotone(n: nat, m: nat)
    requires n <= m
    ensures Pow4(n) <= Pow4(m)
    decreases m - n
  {
    if n < m {
      Pow4Monotone(n + 1, m);
      Pow4Positive(n);
    }
  }

  /** Up to k = 30 the shifted size is exactly 4^(k+1), as the source's
    * comment states. */
  lemma ShiftedSizeIsTableSize(k: u8)
    requires k <= 30
    ensures ShiftedSize(k) as int == TableSize(k)
  {
    Pow2Twice(k as nat);
    Pow4Monotone(k as nat, 30);
    Pow4At31();
  }

  /** At k = 31 the shift yields 2^64, which wraps to zero: the table would
    * have no cells at all instead of 4^32. */
  lemma ShiftedSizeWrapsAt31()
    ensures ShiftedSize(31) == 0
    ensures TableSize(31) == TWO_TO_64
  {
    Pow2Twice(31);
    Pow4At31();
  }

  /** The cells of a freshly resized vector: all counters zero. */
  function Zeros(n: nat): (s: seq<u64>)
    ensures |s| == n
    ensures forall i :: 0 <= i < n ==> s[i] == 0
  {
    seq(n, _ => 0)
  }

  /** The cells after `update(ctx)`. */
  function Bump(s: seq<u64>, ctx: nat): (r: seq<u64>)
    requires ctx < |s|
    ensures |r| == |s|
    ensures r[ctx] as int == (s[ctx] as int + 1) % TWO_TO_64
    ensures forall i :: 0 <= i < |s| && i != ctx ==> r[i] == s[i]
  {
    s[ctx := Inc64(s[ctx])]
  }

  /** The cells after n calls to `update(ctx)`. */
  function BumpN(s: seq<u64>, ctx: nat, n: nat): (r: seq<u64>)
    requires ctx < |s|
    ensures |r| == |s|
  {
    if n == 0 then s else Bump(BumpN(s, ctx, n - 1), ctx)
  }

  /** n updates of one cell add n to it modulo 2^64 and touch no other cell. */
  lemma {:induction false} BumpNEffect(s: seq<u64>, ctx: nat, n: nat)
    requires ctx < |s|
    ensures BumpN(s, ctx, n)[ctx] as int == (s[ctx] as int + n) % TWO_TO_64
    ensures forall i :: 0 <= i < |s| && i != ctx ==> BumpN(s, ctx, n)[i] == s[i]
  {
    if n > 0 {
      BumpNEffect(s, ctx, n - 1);
    }
  }

  /** On a fresh table, fewer than 2^64 updates of ctx leave exactly that many
    * in the cell and every other cell at zero. */
  lemma {:induction false} FreshTableCounts(size: nat, ctx: nat, n: nat)
    requires ctx < size
    requires n < TWO_TO_64
    ensures BumpN(Zeros(size), ctx, n)[ctx] as int == n
    ensures forall i :: 0 <= i < size && i != ctx ==> BumpN(Zeros(size), ctx, n)[i] == 0
  {
    BumpNEffect(Zeros(size), ctx, n);
  }

  /** Number of zero cells, counted from the front as `std::count` does. */
  function CountZeros(s: seq<u64>): (r: nat)
    ensures r <= |s|
  {
    if s == [] then 0
    else CountZeros(s[..|s| - 1]) + (if s[|s| - 1] == 0 then 1 else 0)
  }

  /** CountZeros counts the occurrences of 0 in the cells. */
  lemma {:induction false} CountZerosIsOccurrences(s: seq<u64>)
    ensures CountZeros(s) == multiset(s)[0]
  {
    if s != [] {
      var init := s[..|s| - 1];
      CountZerosIsOccurrences(init);
      assert s == init + [s[|s| - 1]];
    }
  }

  /** Every cell of a fresh table is empty. */
  lemma {:induction false} CountZerosOfZeros(n: nat)
    ensures CountZeros(Zeros(n)) == n
  {
    if n > 0 {
      CountZerosOfZeros(n - 1);
      assert Zeros(n)[..n - 1] == Zeros(n - 1);
    }
  }

  /** Overwriting one cell changes the count of zeros only by that cell. */
  lemma {:induction false} CountZerosUpdate(s: seq<u64>, i: nat, v: u64)
    requires i < |s|
    ensures CountZeros(s[i := v]) + (if s[i] == 0 then 1 else 0)
         == CountZeros(s) + (if v == 0 then 1 else 0)
  {
    var last := |s| - 1;
    if i < last {
      CountZerosUpdate(s[..last], i, v);
      assert s[i := v][..last] == s[..last][i := v];
    } else {
      assert s[i := v][..last] == s[..last];
    }
  }

  /** `update` on an empty cell lowers count_empty by one, on a cell holding
    * 1 .. 2^64-2 leaves it alone, and on a cell at 2^64-1 raises it by one
    * because the counter wraps to zero. */
  lemma {:induction false} CountZerosAfterBump(s: seq<u64>, ctx: nat)
    requires ctx < |s|
    ensures s[ctx] == 0 ==> CountZeros(Bump(s, ctx)) == CountZeros(s) - 1
    ensures 0 < s[ctx] < U64_MAX ==> CountZeros(Bump(s, ctx)) == CountZeros(s)
    ensures s[ctx] == U64_MAX ==> CountZeros(Bump(s, ctx)) == CountZeros(s) + 1
  {
    CountZerosUpdate(s, ctx, Inc64(s[ctx]));
  }

  function Max(a: u64, b: u64): (r: u64)
  {
    if a < b then b else a
  }

  /** Largest cell, found from the front as `std::max_element` does. */
  function MaxCell(s: seq<u64>): (r: u64)
    requires |s| > 0
  {
    if |s| == 1 then s[0] else Max(MaxCell(s[..|s| - 1]), s[|s| - 1])
  }

  /** MaxCell is a cell, and no cell exceeds it. */
  lemma {:induction false} MaxCellIsMaximum(s: seq<u64>)
    requires |s| > 0
    ensures MaxCell(s) in s
    ensures forall i :: 0 <= i < |s| ==> s[i] <= MaxCell(s)
  {
    if |s| > 1 {
      var init := s[..|s| - 1];
      MaxCellIsMaximum(init);
      assert forall x :: x in init ==> x in s;
    }
  }

  /** Any cell value that bounds every cell is MaxCell. */
  lemma MaxCellUnique(s: seq<u64>, m: u64)
    requires m in s
    requires forall i :: 0 <= i < |s| ==> s[i] <= m
    ensures MaxCell(s) == m
  {
    MaxCellIsMaximum(s);
  }

  /** After any `update(ctx)` the maximum is at least the updated cell; when
    * the cell does not wrap, the maximum is the old maximum or the new value
    * of the updated cell, whichever is larger. */
  lemma {:induction false} MaxCellAfterBump(s: seq<u64>, ctx: nat)
    requires ctx < |s|
    ensures s[ctx] < U64_MAX ==> MaxCell(Bump(s, ctx)) == Max(MaxCell(s), s[ctx] + 1)
    ensures MaxCell(Bump(s, ctx)) >= Bump(s, ctx)[ctx]
  {
    var t := Bump(s, ctx);
    MaxCellIsMaximum(t);
    if s[ctx] < U64_MAX {
      MaxCellIsMaximum(s);
      var m := Max(MaxCell(s), s[ctx] + 1);
      if MaxCell(s) < s[ctx] + 1 {
        assert t[ctx] == m;
      } else {
        var j :| 0 <= j < |s| && s[j] == MaxCell(s);
        if j == ctx {
          assert false;
        } else {
          assert t[j] == m;
        }
      }
      MaxCellUnique(t, m);
    }
  }
}
