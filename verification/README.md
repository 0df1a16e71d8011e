# Hash-chain matchfinder, modelled in Dafny

This project models the hash-chain Lempel-Ziv matchfinder of xpack
(`xpack/lib/hc_matchfinder.h`) and proves properties of it.

The matchfinder keeps three tables of 32-bit positions:

- `hash3_tab` holds one position per 3-byte hash code.
- `hash4_tab` holds the head of a chain per 4-byte hash code.
- `next_tab` holds, for every buffer position, the next older position on its chain.

Position 0 stands for "empty" in all three tables.

`hc_matchfinder_longest_match` inserts the current position: it overwrites the
3-byte bucket and prepends the position to the 4-byte chain. When no match of 4
or more bytes is known yet, it returns at once if the 3-byte bucket is empty,
and otherwise checks the 3-byte candidate there, but only when the known best
is below 3. When a match of 4 or more bytes is known, it skips that check and
returns at once if the match already reaches `nice_len`. Otherwise it walks the
4-byte chain from newest to oldest and returns a length and an offset. `hc_matchfinder_skip_positions` performs the
same insertion for a run of positions, without searching.

## Modules

- `bytes.dfy` (`Bytes`): the input bytes, the little-endian 3- and 4-byte loads,
  and `lz_extend` (`Extend`) with its contract. It also defines the common run
  `CommonLen` of two positions.
- `lz_hash.dfy` (`LzHash`): the table orders and sizes, and the hash codes of the
  sequence at a position. `lz_hash` is a parameter of type `HashFn`: any total
  function whose code fits in `order` bits.
- `match_index.dfy` (`MatchIndex`): `struct hc_matchfinder` as an immutable
  record, plus the following.
  - `hc_matchfinder_size` and `hc_matchfinder_init`.
  - The insertion rule shared by search and skip.
  - The chain invariant `ChainInv`. It is stated over a ghost set of inserted
    positions, because `init` does not clear `next_tab`.
- `search.dfy` (`Search`): `hc_matchfinder_longest_match`, phase by phase:
  - `FirstMatch` is the first-match loop.
  - `LongerMatch` is the longer-match loop.
  - `Pass` is the cheap filter, in both builds of `UNALIGNED_ACCESS_IS_FAST`.

  It also gives a reference definition, `Scan`. `Scan` is a newest-first scan
  over the first `max_search_depth` chain nodes that replaces the best match
  only on a strict improvement. The walks are proved equal to it.
- `skip.dfy` (`Skip`): `hc_matchfinder_skip_positions` as a method with the
  source's do-while loop, whose body `SkipInsert` makes the skip's writes in
  the source's order. `InsertRun` is the reference: one search-style
  insertion per position. The module also holds the batch/one-by-one
  equivalence and the chain invariant across a run.
- `scenarios.dfy` (`Scenarios`): worked searches over short buffers, for any hash
  function and any earlier contents of `next_tab`.

Behaviour worth knowing:

- When the batch does not fit in the bytes left, a skip inserts no position
  at all and leaves `next_hashes` as they were (`Skip.SkipPositions`).
- Position 0 is never reported, because 0 is the empty sentinel. At position
  4 of "ABCXABCYZ" the search reports (0, 0): the only earlier "ABC" is at
  position 0 (`Scenarios.SentinelScenario`).
- At position 4 of "AAAAAAAAAA", once positions 0 to 3 have been skipped on a
  fresh index, the search reports length 6 at offset 1
  (`Scenarios.RepeatedByteScenario`).
- A search with `max_len < 5` changes no table, so a search inserts its
  position only when five bytes are available.

## Model

| member | source | states |
|---|---|---|
| Bytes.LittleEndianInjective | xpack/lib/hc_matchfinder.h:238 | two byte runs of equal length load the same value exactly when they hold the same bytes |
| Bytes.Load4ToU24 | xpack/lib/hc_matchfinder.h:205-206 | the low three bytes of a loaded word are the 3-byte load at the same position |
| Bytes.Load4Equal | xpack/lib/hc_matchfinder.h:238 | the 4-byte comparison of the first-match loop is equality of the four bytes |
| Bytes.Load3Equal | xpack/lib/hc_matchfinder.h:222-223 | the 3-byte comparison of the short check is equality of the three bytes |
| Bytes.Extend | xpack/lib/hc_matchfinder.h:249 | `lz_extend` from `start` already-equal bytes returns a length between `start` and `max` over which the bytes agree, followed by a mismatch unless it reached `max` |
| Bytes.ExtendUnique | xpack/lib/hc_matchfinder.h:292 | any equal run that stops at `max` or at a mismatch is the one `lz_extend` returns |
| Bytes.ExtendFromAnyStart | xpack/lib/hc_matchfinder.h:287-292 | extending from 4 known-equal bytes and extending from 0 give the same length |
| Bytes.CommonLenAtLeast | xpack/lib/hc_matchfinder.h:238-249 | the common run is at least `k` exactly when the first `k` bytes agree |
| Bytes.CommonLenBelowMismatch | xpack/lib/hc_matchfinder.h:277 | a differing byte at index `i` caps the common run at `i` |
| LzHash.TableSizes | xpack/lib/hc_matchfinder.h:100-110 | the table sizes are 2^15 and 2^16 buckets |
| LzHash.WindowHashes | xpack/lib/hc_matchfinder.h:204-208 | the next hash codes index into their tables, and the 3-byte code hashes the three bytes at the position |
| LzHash.WindowHashesAgree | xpack/lib/hc_matchfinder.h:204-208 | sequences with equal first four bytes share both buckets, and sequences with equal first three bytes share the 3-byte bucket |
| MatchIndex.SizeCoversTables | xpack/lib/hc_matchfinder.h:121-125 | the allocation size counts four bytes for every cell of the three tables |
| MatchIndex.Init | xpack/lib/hc_matchfinder.h:128-132 | both hash tables are all zero, `next_tab` keeps its contents, and the empty index satisfies the chain invariant |
| MatchIndex.Insert | xpack/lib/hc_matchfinder.h:195-202 | the 3-byte and 4-byte buckets hold `pos`, the link of `pos` holds the old 4-byte head, and no other cell changes |
| MatchIndex.Step | xpack/lib/hc_matchfinder.h:192-208 | the search's update: both buckets of the current codes hold `pos`, the link of `pos` holds the old 4-byte head, no other cell changes, and `next_hashes` become the codes of the three and four bytes at `pos + 1` |
| MatchIndex.Chain | xpack/lib/hc_matchfinder.h:24-29 | a chain starts at its head, follows the links, holds only inserted positions, is strictly decreasing, and ends at the sentinel 0 |
| MatchIndex.InsertKeepsInv | xpack/lib/hc_matchfinder.h:195-202 | inserting a position at or above all earlier ones keeps the chain invariant |
| MatchIndex.ChainFrame | xpack/lib/hc_matchfinder.h:242 | a chain depends only on the links of inserted positions |
| MatchIndex.InsertPrepends | xpack/lib/hc_matchfinder.h:199-202 | an insertion prepends the position to its own 4-byte chain and leaves every other bucket's chain unchanged |
| MatchIndex.ChainBelow | xpack/lib/hc_matchfinder.h:24-25 | every chain node is nonzero and below the current position |
| Search.Scan | xpack/lib/hc_matchfinder.h:293-299 | the reference scan never lowers the best; a new best is one of the candidates, at least 4 bytes long, with exactly that common run |
| Search.ScanFindsLongest | xpack/lib/hc_matchfinder.h:293-296 | unless the scan stopped at `nice_len`, no candidate with a common run of 4 or more bytes beats its result |
| Search.ScanPicksFirst | xpack/lib/hc_matchfinder.h:293-298 | a new best is the first candidate of its length, and no earlier candidate was an improvement that reached `nice_len` |
| Search.ScanNewestFirst | xpack/lib/hc_matchfinder.h:27-29 | on newest-first candidates, every candidate newer than the reported one is strictly shorter |
| Search.ReportNewestFirst | xpack/lib/hc_matchfinder.h:221-226 | for a scan seeded with `best_len` or with a 3-byte match found by the short check, a reported match of 4 or more bytes is a candidate, and every newer candidate is shorter and was no improvement on `best_len` reaching `nice_len` |
| Search.PassSound | xpack/lib/hc_matchfinder.h:271-279 | a candidate passes the filter with its first `StartLen` bytes equal, and a rejected candidate's common run is at most the current best |
| Search.WordFilterPasses | xpack/lib/hc_matchfinder.h:272-275 | a candidate longer than the current best passes the word filter |
| Search.Consider | xpack/lib/hc_matchfinder.h:264-299 | one node of the longer-match loop replaces the best exactly when its common run is strictly longer |
| Search.LongerMatch | xpack/lib/hc_matchfinder.h:262-305 | the longer-match loop never lowers the best; a new best is an inserted position whose bytes match over its length, capped at `max_len` |
| Search.FirstMatch | xpack/lib/hc_matchfinder.h:234-254 | the first-match loop never lowers the best; a new best is an inserted position with a match of 4 to `max_len` bytes |
| Search.ShortCheck | xpack/lib/hc_matchfinder.h:219-226 | the 3-byte check succeeds exactly when the three bytes at the candidate match |
| Search.FindBest | xpack/lib/hc_matchfinder.h:212-258 | the search after the insertion never lowers the best; it returns at once when a known best of 4 or more reaches `nice_len`, or when the 3-byte bucket is empty and the best is below 4 |
| Search.LongestMatch | xpack/lib/hc_matchfinder.h:163-309 | with `max_len < 5`: `(best_len, 0)` and unchanged tables; otherwise exactly one insertion and the next hashes. The length is never below `best_len`; the offset is 0 exactly when the length is unchanged; a longer result is a match of at most `max_len` bytes at an earlier, nonzero, inserted position. The early exits are included |
| Search.WalkIsTakeChain | xpack/lib/hc_matchfinder.h:242-243 | following at most `depth` links visits the first `depth` nodes of the chain |
| Search.LongerMatchIsScan | xpack/lib/hc_matchfinder.h:262-305 | the longer-match loop equals the reference scan of the nodes it can reach, for either filter |
| Search.FirstMatchIsScan | xpack/lib/hc_matchfinder.h:234-254 | the first-match loop, which continues into the longer-match loop, equals the reference scan of the nodes it can reach |
| Search.Inspectable | xpack/lib/hc_matchfinder.h:175 | the nodes a search may inspect number at most `max_search_depth`, are newest first, and lie strictly between 0 and the current position |
| Search.FindBestIsScan | xpack/lib/hc_matchfinder.h:212-305 | once the search gets past the early exits at lines 216 and 256, the search after the insertion is the reference scan of the reachable nodes, seeded with the result of the short check |
| Search.LongestMatchWalks | xpack/lib/hc_matchfinder.h:199-202 | the walk after the insertion reads only links that the insertion did not change |
| Search.LongestMatchScansChain | xpack/lib/hc_matchfinder.h:212-305 | whenever the search reaches the chain walk, its result is the reference scan of the first `max_search_depth` nodes of the old chain; a result longer than `best_len` implies the search got past the early exits at lines 216 and 256 |
| Search.LongestMatchFilterIndependent | xpack/lib/hc_matchfinder.h:271-291 | both builds of the rejection filter return the same search result |
| Search.LongestMatchNewestFirst | xpack/lib/hc_matchfinder.h:293-296 | a reported match of 4 or more bytes is an inspected node, and every inspected node closer to the current position has a strictly shorter common run |
| Search.LongestMatchLongest | xpack/lib/hc_matchfinder.h:262-305 | unless the search stopped at `nice_len` or an early exit, no inspected node has a longer common run of 4 or more bytes |
| Search.LongestMatchKeepsInv | xpack/lib/hc_matchfinder.h:195-202 | a search keeps the chain invariant, with its position added when it inserted one |
| Skip.GuardAsWrittenWraps | xpack/lib/hc_matchfinder.h:343 | the guard as written, with `count + 5` in 32 bits, accepts a count of 2^32 - 1 with 4 bytes left, where the batch does not fit |
| Skip.GuardAsWrittenAgrees | xpack/lib/hc_matchfinder.h:343 | below the wrap, the written guard and the intended guard agree both ways |
| Skip.InsertRunStep | xpack/lib/hc_matchfinder.h:349-359 | one more position of a run is one more search-style insertion |
| Skip.SkipInsert | xpack/lib/hc_matchfinder.h:350-357 | the skip's loop body, written in its own order: both buckets of the current codes hold `pos`, the link of `pos` holds the 4-byte head read before it is overwritten, no other cell changes, and `next_hashes` become the codes of the bytes at `pos + 1` |
| Skip.SkipInsertIsStep | xpack/lib/hc_matchfinder.h:350-357 | the skip's three writes and rehash, in the source's order, leave the same state as the search's insertion at lines 192-208 |
| Skip.SkipPositions | xpack/lib/hc_matchfinder.h:332-368 | returns `cur_pos + count`; when the batch fits, the state equals inserting the positions one by one; otherwise the tables and `next_hashes` are unchanged |
| Skip.InsertRunSplit | xpack/lib/hc_matchfinder.h:349-359 | a run of `a` positions followed by a run of `b` positions equals a run of `a + b` positions |
| Skip.InsertRunHashes | xpack/lib/hc_matchfinder.h:323-326 | after a nonempty run, `next_hashes` hold the codes at `cur_pos + count` |
| Skip.InsertRunHeads | xpack/lib/hc_matchfinder.h:350-352 | the last position of a run heads both buckets it was inserted under |
| Skip.RunAddedMembers | xpack/lib/hc_matchfinder.h:350-352 | a run inserts exactly its own positions, except the sentinel 0 |
| Skip.InsertRunKeepsInv | xpack/lib/hc_matchfinder.h:349-359 | a run starting at or above every inserted position keeps the chain invariant |
| Skip.StepThenRun | xpack/lib/hc_matchfinder.h:192-208 | one insertion followed by a run over the next `n` positions is a run over `n + 1` positions |
| Skip.SearchThenSkip | xpack/lib/hc_matchfinder.h:349-359 | a search followed by a skip leaves the same state as one skip over both, so searches and skips interleave freely |
| Scenarios.NoMatchWithoutSharedByte | xpack/lib/hc_matchfinder.h:223-225 | when no inserted position shares the first byte, the search reports `(best_len, 0)` |
| Scenarios.RepeatedByteIndex | xpack/lib/hc_matchfinder.h:349-359 | skipping positions 0 to 3 of "AAAAAAAAAA" on a fresh index leaves position 3 at the head of both buckets at position 4 |
| Scenarios.RepeatedByteSearch | xpack/lib/hc_matchfinder.h:234-251 | a search at position 4 of "AAAAAAAAAA" with both buckets holding 3 reports length 6 at offset 1 |
| Scenarios.RepeatedByteScenario | xpack/lib/hc_matchfinder.h:332-368 | skipping positions 0 to 3 on a fresh index, then searching at 4, reports length 6 at offset 1 |
| Scenarios.FirstPositionScenario | xpack/lib/hc_matchfinder.h:216-217 | a search at position 0 of "ABCDEFGH" reports `(0, 0)` |
| Scenarios.SentinelScenario | xpack/lib/hc_matchfinder.h:216-253 | at position 4 of "ABCXABCYZ" the three bytes at position 0 match, yet the search reports `(0, 0)` whatever came before |
| Scenarios.SkipThenSearchScenario | xpack/lib/hc_matchfinder.h:341-359 | skipping 3 positions of "ABCDEFGHIJ" on a fresh index, then searching at 3, reports `(0, 0)` |

## Left out

- The `prefetchw` hints (lines 209-210 and 361-362) are left out. They affect speed only.
- Unaligned loads are modelled as little-endian reads of consecutive bytes, the
  layout the MSVC configuration of the source selects. Big-endian targets are
  not modelled.
- The multiplicative hash in `lz_hash.h` is not part of this model. `lz_hash` is
  a parameter whose result fits in `order` bits.
- `lz_extend.h` is not part of this model. `Bytes.Extend` is a byte-by-byte
  definition satisfying the contract the callers rely on.
- Positions are unbounded naturals. The model does not cover buffers whose
  positions would not fit in 32 bits, or the truncation of `cur_pos` when it is
  stored into a `u32` cell. The size arithmetic in `hc_matchfinder_size` is
  likewise unbounded.
- The memory layout of the flexible array member is not modelled. `next_tab` is a
  sequence with one cell per position of the largest buffer.
- The sliding-window use mentioned in the header comment is not modelled. It is
  not implemented in this file.
- `glza/GLZAmodel.h` (range coder constants and prototypes) and
  `xpack/common/compiler_msc.h` (compiler shims) are not part of this model.
- The insertion order is not an input. The chain invariant assumes positions are
  inserted in increasing order, as the driving parser does. The lemmas take the
  set of inserted positions as a ghost argument.
- Determinism is not stated as a lemma. Every operation here is a function of its
  inputs.
- `Skip.StepAt` leaves the state alone at a position where `Step` is undefined.
  A skip never applies it there, so no source behaviour is modelled by that case.

## Findings

| source | as written | input that shows it | evidently intended | confidence | as-written member | corrected member |
|---|---|---|---|---|---|---|
| xpack/lib/hc_matchfinder.h:343 | `count + 5` is computed in 32-bit unsigned arithmetic, then compared with the signed room `end_pos - cur_pos`, so the sum wraps for counts within 5 of 2^32 | `count = 0xFFFFFFFF` with `end_pos - cur_pos = 4`: the sum wraps to 4, the guard passes, and the loop would insert and read past the buffer | the batch runs only when `count + 5` bytes, computed without wrap-around, are left | not executed; latent, since callers pass match lengths far below 2^32 | Skip.GuardAsWrittenWraps | Skip.SkipPositions |
