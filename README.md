# Table64 count table (smash++)

This project models `Table64`, the dense counter table behind smash++'s
finite-context model. For context size k the table holds 4^(k+1) 64-bit
counters, and an integer context is the index of its cell. The constructor
allocates the table with every counter at zero. `update(ctx)` increments one
counter in place and `query(ctx)` reads one. Two debug summaries,
`count_empty` and `max_tbl_val`, report the number of zero cells and the
largest counter.

Two modules:

- `Counters` (counters.dfy) is the value-level view. It defines the source's
  `u8`, `u32` and `u64` types as newtypes and the wrapping `++` on a `u64`
  counter. It defines the table size 4^(k+1) and the size as written, a 64-bit
  left shift. It also holds the specification functions on the cells as a
  sequence: `Bump` for one update, `BumpN` for n updates, `CountZeros` and
  `MaxCell`, with the lemmas about them.
- `Tbl64` (tbl64.dfy) is the class `Table64`. Its counters are an
  `array<u64>` that `Update` changes in place, with the context size `k`
  beside it. `Valid()` says the array has exactly 4^(k+1) cells. Each method
  is proved against the `Counters` functions.

Counters wrap around: `++` on a counter at 2^64-1 gives 0, exactly as
unsigned arithmetic does in C++. The contracts state this case separately
and do not assume it away.

## Model

| member | source | states |
|---|---|---|
| `Counters.Inc64` | src/tbl64.cpp:13 | `++` on a u64 counter yields the old value plus one modulo 2^64; the result is zero exactly when the counter was at 2^64-1 |
| `Counters.TableSize` | src/tbl64.cpp:8 | a table for any context size has at least 4 cells and a multiple of 4, so it is never empty |
| `Counters.ShiftedSize` | src/tbl64.cpp:8 | the size as written, `4ull << (k << 1u)` in 64-bit arithmetic, defined for shift counts below 64 (k < 32), is 4^(k+1) reduced modulo 2^64 |
| `Counters.ShiftedSizeIsTableSize` | src/tbl64.cpp:8 | for k up to 30 the 64-bit shift `4 << 2k` requested by the constructor equals 4^(k+1), as the comment on that line says |
| `Counters.ShiftedSizeWrapsAt31` | src/tbl64.cpp:8 | for k = 31 the shift as written gives 0 cells while 4^(k+1) is 2^64 |
| `Tbl64.Table64.constructor` | src/tbl64.cpp:7-10 | records k and allocates a fresh table of exactly 4^(k+1) counters, every one zero |
| `Tbl64.Table64.Update` | src/tbl64.cpp:12-14 | needs ctx to index the table (no bounds check); the new cells are the old ones with cell ctx incremented modulo 2^64; below 2^64-1 that cell grows by exactly one; every other cell, the size and k are unchanged |
| `Tbl64.Table64.Query` | src/tbl64.cpp:16-18 | needs ctx to index the table; returns the counter of ctx and changes nothing |
| `Tbl64.Table64.CountEmpty` | src/tbl64.cpp:30-32 | returns the number of occurrences of 0 among the counters, which is at most the table size |
| `Tbl64.Table64.MaxTblVal` | src/tbl64.cpp:34-36 | returns a value held by some counter that no counter exceeds |
| `Tbl64.CountAfterUpdates` | src/tbl64.cpp:7-18 | on a freshly constructed table, n updates of one context followed by a query of it return n, for any n below 2^64 |
| `Counters.Zeros` | src/tbl64.cpp:8 | the cells of the freshly resized vector: the requested number of counters, every one zero |
| `Counters.Bump` | src/tbl64.cpp:13 | the cells after `++tbl[ctx]`: same length, cell ctx plus one modulo 2^64, every other cell as before |
| `Counters.BumpNEffect` | src/tbl64.cpp:12-14 | n updates of ctx add n modulo 2^64 to that cell and leave every other cell as it was |
| `Counters.FreshTableCounts` | src/tbl64.cpp:7-18 | starting from all zeros, n < 2^64 updates of ctx leave n in that cell and zero everywhere else |
| `Counters.CountZeros` | src/tbl64.cpp:31 | the front-to-back count of zero cells never exceeds the number of cells |
| `Counters.CountZerosIsOccurrences` | src/tbl64.cpp:31 | the front-to-back count of zero cells equals the number of occurrences of 0 in the table |
| `Counters.CountZerosOfZeros` | src/tbl64.cpp:30-32 | on a fresh table every cell is empty, so count_empty equals the table size |
| `Counters.CountZerosUpdate` | src/tbl64.cpp:12-14 | overwriting one cell changes the number of zero cells only by what that cell held before and after |
| `Counters.CountZerosAfterBump` | src/tbl64.cpp:12-14 | an update of an empty cell lowers count_empty by one; of a cell holding 1 to 2^64-2 leaves it unchanged; of a cell at 2^64-1 raises it by one, since the counter wraps to zero |
| `Counters.MaxCellIsMaximum` | src/tbl64.cpp:35 | the front-to-back maximum of a non-empty table is one of its cells and at least every cell |
| `Counters.MaxCellUnique` | src/tbl64.cpp:35 | any cell value that bounds every cell is that maximum |
| `Counters.MaxCellAfterBump` | src/tbl64.cpp:34-36 | after every update, wrap included, the maximum is at least the updated cell; after an update that does not wrap, it is the larger of the old maximum and the new value of that cell |

## Left out

- `Table64::dump` and `Table64::load` (src/tbl64.cpp:20-27): raw binary stream I/O.
- `Table64::print` (src/tbl64.cpp:38-48): text formatting to the error stream.
- The `std::bad_alloc` handler in the constructor (src/tbl64.cpp:9): memory exhaustion has no meaning in the model. Likewise the model allocates 4^(k+1) cells for every k and does not model the length limit of `std::vector`.
- The `DEBUG` guard around `count_empty`, `max_tbl_val` and `print`: the model defines `CountEmpty` and `MaxTblVal` unconditionally.
- `Tbl64.Table64.CountEmpty`: returns an unbounded count where the source casts to `u64`. The count never exceeds the table size, and the size of any real vector is below 2^64, so the cast loses nothing.
- The table is an array object beside the `Table64` object, whereas the source holds the `std::vector` inside it. Nothing else refers to the array, so no aliasing arises.
- src/fcm.cpp: the only live logic is the constructor's choice between hash-table and table mode. That choice compares constants from def.hpp, and def.hpp is not part of this model. The destructor only frees memory. `buildModel`, `compress` and `printTable` are commented out.
- src/tbl32.hpp and src/par.hpp: declarations without bodies; the two `Table32` overloads written inline are empty stubs.
- xp/test_plot_fil.py: a plotting script built from file reading, floating-point parsing and matplotlib calls.

## Findings

| source | as written | input that shows it | evidently intended | confidence | as-written member | corrected member |
|---|---|---|---|---|---|---|
| src/tbl64.cpp:8 | the size is computed as `4ull << (k << 1u)` in 64-bit arithmetic | k = 31: the shift gives 2^64, which wraps to 0, so the table gets no cells and every `update`, `query` and `max_tbl_val` reads outside it; k >= 32 is an undefined shift | a table of 4^(k+1) cells, as the comment on the same line says, or the allocation error | not executed; low, since callers may never pass k >= 31 (their bound lives in def.hpp, which is not part of this model) | `Counters.ShiftedSize`, shown by `Counters.ShiftedSizeWrapsAt31` | `Counters.TableSize`, used by `Tbl64.Table64.constructor` |
