// Table64: the dense table of 64-bit counters behind a finite-context model.
// It holds 4^(k+1) counters for context size k, indexed by an integer
// context. Counters are updated in place.
module Tbl64 {
  import opened Counters

  class Table64 {
    /** The counters, one per context. */
    var tbl: array<u64>
    /** The context size. */
    var k: u8

    /** The object invariant: the table has exactly 4^(k+1) cells. */
    ghost predicate Valid()
      reads this
    {
      tbl.Length == TableSize(k)
    }

    /** The counters as a sequence. */
    ghost function Cells(): (s: seq<u64>)
      reads this, tbl
      ensures |s| == tbl.Length
    {
      tbl[..]
    }

    /** Allocates 4^(k+1) counters, all zero. */
    constructor (k_: u8)
      ensures Valid() && fresh(tbl)
      ensures k == k_
      ensures tbl.Length == TableSize(k_)
      ensures Cells() == Zeros(TableSize(k_))
    {
      k := k_;
      tbl := new u64[TableSize(k_)](_ => 0);
    }

    /** Adds one to the counter of ctx, wrapping at 2^64; no bounds check,
      * so ctx must index the table. */
    method Update(ctx: u32)
      requires Valid()
      requires ctx as int < tbl.Length
      modifies tbl
      ensures Valid() && k == old(k)
      ensures Cells() == Bump(old(Cells()), ctx as nat)
      ensures old(tbl[ctx]) < U64_MAX ==> tbl[ctx] == old(tbl[ctx]) + 1
      ensures forall i :: 0 <= i < tbl.Length && i != ctx as int ==> tbl[i] == old(tbl[i])
    {
      tbl[ctx] := Inc64(tbl[ctx]);
    }

    /** The counter of ctx; no bounds check, so ctx must index the table. */
    method Query(ctx: u32) returns (c: u64)
      requires Valid()
      requires ctx as int < tbl.Length
      ensures c == Cells()[ctx]
    {
      c := tbl[ctx];
    }

    /** Number of counters equal to zero, counted the way `std::count` walks
      * the table. */
    method CountEmpty() returns (e: nat)
      requires Valid()
      ensures e == CountZeros(Cells())
      ensures e == multiset(Cells())[0]
      ensures e <= tbl.Length
    {
      e := 0;
      var i := 0;
      while i < tbl.Length
        invariant 0 <= i <= tbl.Length
        invariant e == CountZeros(tbl[..i])
      {
        assert tbl[..i + 1][..i] == tbl[..i];
        if tbl[i] == 0 {
          e := e + 1;
        }
        i := i + 1;
      }
      assert tbl[..i] == tbl[..];
      CountZerosIsOccurrences(tbl[..]);
    }

    /** The largest counter, found the way `std::max_element` walks the table;
      * the table is never empty. */
    method MaxTblVal() returns (m: u64)
      requires Valid()
      ensures m == MaxCell(Cells())
      ensures m in Cells()
      ensures forall i :: 0 <= i < tbl.Length ==> tbl[i] <= m
    {
      m := tbl[0];
      var i := 1;
      while i < tbl.Length
        invariant 1 <= i <= tbl.Length
        invariant m == MaxCell(tbl[..i])
      {
        assert tbl[..i + 1][..i] == tbl[..i];
        if m < tbl[i] {
          m := tbl[i];
        }
        i := i + 1;
      }
      assert tbl[..i] == tbl[..];
      MaxCellIsMaximum(tbl[..]);
    }
  }

  /** A fresh table queried after n updates of one context reports n, as long
    * as n stays below 2^64. */
  method CountAfterUpdates(k: u8, ctx: u32, n: nat) returns (c: u64)
    requires ctx as int < TableSize(k)
    requires n < TWO_TO_64
    ensures c as int == n
  {
    var t := new Table64(k);
    var done := 0;
    while done < n
      invariant 0 <= done <= n
      invariant t.Valid() && t.k == k
      invariant t.Cells() == BumpN(Zeros(TableSize(k)), ctx as nat, done)
      modifies t.tbl
    {
      t.Update(ctx);
      done := done + 1;
    }
    FreshTableCounts(TableSize(k), ctx as nat, n);
    c := t.Query(ctx);
  }
}
