# aids: a verified model of the header's core and of the Game of Life example

This project models, in Dafny, the sequential core of `aids.hpp`, a
header-only C++ utility library, together with the Game of Life program
`examples/gol.cpp` that is built on it:

- the size literals `_KiB`, `_MiB`, `_GiB` (`units.dfy`, module `Units`),
  with the 64-bit wrap-around of `unsigned long long` written out;
- `min` and `max` (`algorithm.dfy`, module `Algorithm`);
- the errno-carrying results `Result<T, Errno>` and `Result<void, Errno>`
  (`errors.dfy`, module `Errors`), reduced to what `alloc` and `push` need;
- the region (bump) allocator `Region<Capacity>` and its `alloc`
  (`region.dfy`, module `Regions`): a class whose `size` only grows, a pure
  `Allocate` step that specifies it, and proofs that the used size stays
  within the capacity and that the blocks handed out never overlap;
- the `String` slice operations `==`, `!=`, `chop_by_delim`, `trim_begin`,
  `trim_end`, `trim`, `take` and `drop` (`strings.dfy`, module `Strings`);
  the loops of `chop_by_delim` and the trims are methods with loop
  invariants, proved against specification functions;
- the ring buffer `Fixed_Queue` with `enqueue` / `dequeue` (`queue.dfy`,
  module `Queues`) and the stack `Fixed_Stack` with `push` (`stack.dfy`,
  module `Stacks`), as classes over arrays whose abstract contents behave as
  a FIFO sequence and a stack;
- Game of Life on the 5×5 torus: the rules on board values (`life_rules.dfy`,
  module `LifeRules`) and the board class with `get_wrapped`, `nbors`,
  `next_gen` and the front/back buffer swap of `main` (`life_board.dfy`,
  module `LifeBoard`).

A `String` is modelled by its content, the `size` bytes that `data` points
at (`seq<bv8>`); the null `String *` that `chop_by_delim` accepts is
`Option.None`, and the pointer it rewrites comes back as the `rest` result.
`isspace` is the C-locale predicate: space and `\t \n \v \f \r`.
`aids::mod`, used by `get_wrapped` but defined elsewhere, is taken to give
the remainder in `[0, n)`.

## Model

| member | source | states |
|---|---|---|
| Algorithm.Min | aids.hpp:18-22 | the result is at most both arguments and is one of them |
| Algorithm.Max | aids.hpp:24-28 | the result is at least both arguments and is one of them |
| Units.UnitSteps | aids.hpp:113-126 | `1_KiB` is 1024 bytes and each unit is 1024 of the unit below |
| Units.ExactUnits | aids.hpp:113-126 | without 64-bit overflow, `n_KiB = n·1024`, `n_MiB = n·1024²`, `n_GiB = n·1024³` |
| Units.KiBWraps | aids.hpp:113-116 | past 2^54 the product wraps modulo 2^64 (2^54 KiB is 0) |
| Regions.Allocate | aids.hpp:152-163 | succeeds iff `size + used <= capacity`; on success hands out offset `used` and `used` grows by exactly `size`; on failure yields ENOMEM and leaves `used` alone |
| Regions.UsedStaysBounded | aids.hpp:152-163 | after any series of `alloc` calls the region's `size` is still between its old value and the capacity |
| Regions.BlocksDisjoint | aids.hpp:152-163 | every block handed out lies within the buffer, after the bytes already in use, and no two blocks overlap |
| Regions.AllocAsWritten | aids.hpp:155-160 | `alloc` with the `size_t` sums wrapping modulo 2^64: succeeds iff the wrapped sum is within capacity |
| Regions.AllocAsWrittenOverflows | aids.hpp:155-160 | with 1 byte in use, a request of 2^64-1 bytes is granted by the wrapped test and resets `size` to 0, while the overflow-free test refuses it |
| Regions.Region.constructor | aids.hpp:145-150 | a new region has `size = 0` and a buffer of `Capacity` bytes |
| Regions.Region.Alloc | aids.hpp:152-163 | the method agrees with `Allocate`: offset `old size` and `size` grown by `n` iff it fits, ENOMEM and `size` unchanged otherwise |
| Strings.MemCmp | aids.hpp:206 | `memcmp` is 0 iff the first `n` bytes agree |
| Strings.Equal | aids.hpp:203-207 | `a == b` iff the sizes are equal and every byte matches |
| Strings.NotEqual | aids.hpp:209-212 | `a != b` is exactly the negation of `a == b` |
| Strings.ChopByDelim | aids.hpp:237-261 | null or empty input: empty token, `*s` unchanged; otherwise the token has no delimiter, and either `old *s = token ++ [delim] ++ new *s`, or the token is all of `*s` and `*s` becomes empty |
| Strings.TrimmedBegin | aids.hpp:263-270 | the result is a suffix of the input that is empty or starts with a non-space byte, and all bytes dropped are whitespace |
| Strings.TrimBegin | aids.hpp:263-270 | the loop computes `TrimmedBegin` |
| Strings.TrimmedEnd | aids.hpp:272-278 | the result is a prefix of the input that is empty or ends with a non-space byte, and all bytes dropped are whitespace |
| Strings.TrimEnd | aids.hpp:272-278 | the loop computes `TrimmedEnd` |
| Strings.Trim | aids.hpp:280-283 | `trim` is `trim_begin` after `trim_end` |
| Strings.TrimmedIsSlice | aids.hpp:263-283 | `trim` yields a contiguous slice of its input that neither starts nor ends with whitespace, with only whitespace cut off on either side |
| Strings.TrimIdempotent | aids.hpp:280-283 | trimming twice is the same as trimming once |
| Strings.Take | aids.hpp:285-291 | `take(s, n)` is the prefix of length `min(n, size)` |
| Strings.Drop | aids.hpp:293-301 | `drop(s, n)` is empty when `n > size`, otherwise the suffix of length `size - n` |
| Strings.TakeDropSplit | aids.hpp:285-301 | `take(s, n) ++ drop(s, n) == s` for every `n`; for `n >= size`, `take` is all of `s` and `drop` is empty |
| Queues.FixedQueue.constructor | aids.hpp:415-421 | a new queue has `begin = 0`, `size = 0`, empty contents |
| Queues.FixedQueue.Enqueue | aids.hpp:423-429 | with `size < Capacity`, writes at `(begin + size) % Capacity`, touches no other slot, grows `size`; the contents gain the element at the back; `begin < Capacity`, `size <= Capacity` preserved |
| Queues.FixedQueue.Dequeue | aids.hpp:431-439 | with `size > 0`, returns the front element, advances `begin` modulo `Capacity` and shrinks `size`; the contents lose their front |
| Stacks.FixedStack.constructor | aids.hpp:445-450 | a new stack has `size = 0` |
| Stacks.FixedStack.Push | aids.hpp:452-462 | when full, ENOMEM and nothing changes; otherwise the element goes to index `old size`, `size` grows by one and no other slot changes |
| LifeRules.Mod | examples/gol.cpp:19 | the remainder lies in `[0, n)`; one step below 0 or past `n` wraps to the other end |
| LifeRules.GetWrappedTorus | examples/gol.cpp:17-20 | coordinates one step off the board read the opposite edge (`y = -1` reads row `H-1`, `y = H` reads row 0) |
| LifeRules.CountAlive | examples/gol.cpp:22-35 | the count over the first `k` neighbour offsets is at most `k` |
| LifeRules.LiveNeighbours | examples/gol.cpp:22-35 | the neighbour count lies in `[0, 8]` |
| LifeRules.OffsetsAreNeighbours | examples/gol.cpp:25-27 | the offsets counted are eight distinct pairs in {-1,0,1}², none of them (0,0) |
| LifeRules.NeighbourIsNotSelf | examples/gol.cpp:25-28 | on the 5×5 torus no neighbour offset wraps back to the cell itself |
| LifeRules.CountIgnoresSelf | examples/gol.cpp:22-35 | changing the cell `(y, x)` changes none of the partial neighbour counts of `(y, x)` |
| LifeRules.SelfNotCounted | examples/gol.cpp:22-35 | the cell itself is never counted: its neighbour count does not depend on it |
| LifeRules.SurvivalAndBirth | examples/gol.cpp:56-61 | an Alive cell is Alive next iff it has 2 or 3 Alive neighbours; a Dead cell is Alive next iff it has exactly 3 |
| LifeRules.CountOnDeadBoard | examples/gol.cpp:22-35 | on an all-Dead board every partial neighbour count is 0 |
| LifeRules.DeadBoardStaysDead | examples/gol.cpp:59-60 | the next generation of an all-Dead board is all-Dead |
| LifeBoard.Board.constructor | examples/gol.cpp:13-15 | a new board holds the given H×W cells |
| LifeBoard.Board.GetWrapped | examples/gol.cpp:17-20 | reading the array with wrapped indices agrees with the board value's `GetWrapped` |
| LifeBoard.Board.Nbors | examples/gol.cpp:22-35 | the nested loops return exactly the number of Alive cells at the eight neighbour offsets, between 0 and 8 |
| LifeBoard.RowsCountIsLiveNeighbours | examples/gol.cpp:25-33 | counting row by row, skipping (0,0), gives the same number as counting over the eight offsets |
| LifeBoard.NextGen | examples/gol.cpp:52-64 | with two distinct boards, every cell of `next` is set by the rule from `prev` alone (so `next`'s old contents do not matter) and `prev` is unchanged |
| LifeBoard.Run | examples/gol.cpp:79-88 | after `n` swaps `fb` is 0 or 1 and the front board holds the `n`-th generation of the starting board; every `next_gen` call gets two distinct boards |

## Left out

- Console output: `print1`, `print`, `println`, `Board::render`, the cursor
  escapes and `usleep` in `main` (I/O and a clock).
- `main` loops forever; `LifeBoard.Run` takes the number of generations as a
  parameter and says what holds after any number of them.
- The initial glider in `boards[0]` is not reproduced; `Run` holds for any
  starting board.
- `read_whole_file`, `defer`, `string_of_cstr` (which relies on `strlen`
  over a NUL-terminated pointer), `cstr_of_string`, `copy`, `free` and the
  `Mator` heap allocator: file I/O, destructors and `malloc`/`memcpy`
  wrappers.
- `Result`, `result_errno`, `unwrap_or_panic`, `refail`, `fail`: only the
  error outcomes of `alloc` and `push` are modelled (`Errors.Result`,
  `Errors.Status`); the panics abort the process.
- `print1(float)`: floating-point formatting.
- `String_View`, the hash map and the UTF-8 codec used by the tests are not
  part of this model: they are not defined in this revision of `aids.hpp`.
- `aids::mod` is not defined in this revision of `aids.hpp` either;
  `LifeRules.Mod` assumes it is the Euclidean remainder, in `[0, n)`.
- Pointer identity: a `String` is its content, so the model does not say
  which buffer a slice points into, nor that the empty results of
  `chop_by_delim` and `drop` carry a null `data` pointer.
- `Region.Alloc` returns the offset of the block; the cast of
  `region->data + offset` to `T` and any alignment are not modelled.
- `Strings.MemCmp` keeps only the sign of `memcmp`'s result, which is all the
  standard promises and all `==` uses.
- `LifeBoard.Board.Nbors`: `y + dy` and `x + dx` are unbounded integers;
  the overflow of C `int` at `INT_MAX` is not modelled.
- `enqueue` and `dequeue` `assert` their conditions; these are preconditions
  here, and `Fixed_Queue` is required to have a capacity above 0 (a
  zero-length array and `% 0` are not valid C++).

## Findings

| source | as written | input that shows it | evidently intended | confidence | as-written member | corrected member |
|---|---|---|---|---|---|---|
| aids.hpp:155-160 | `if (size + region->size > Capacity)` adds two `size_t` values, which wraps modulo 2^64, and `region->size += size` wraps too | region with `size = 1` (any `Capacity`, e.g. `640_KiB`), `alloc` of `2^64 - 1` bytes: the sum wraps to 0, the test passes, the returned block runs far past the buffer and `size` becomes 0, so the next block overlaps it | refuse any request that does not fit in the remaining `Capacity - size` bytes | not executed; the arithmetic follows from the `size_t` types | Regions.AllocAsWrittenOverflows | Regions.BlocksDisjoint |
