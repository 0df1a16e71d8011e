/** `hc_matchfinder_skip_positions`: advance over a run of positions,
    inserting each one as the search would, without searching. */
module Skip {
  import opened Bytes
  import opened LzHash
  import opened MatchIndex
  import opened Search

  /** `count` is a `u32`. */
  const U32_LIMIT: nat := 0x1_0000_0000

  /** The batch of `count` insertions fits in the `room` bytes left: the
      last insertion, at `cur_pos + count - 1`, hashes the word at
      `cur_pos + count`, and one more byte stays readable. */
  predicate Fits(count: nat, room: int)
  {
    count + 5 <= room
  }

  /** The guard as the source computes it: `count + 5` is evaluated in
      32-bit unsigned arithmetic and only then compared with the signed
      room, so it wraps for counts within five of 2^32. */
  predicate GuardAsWritten(count: nat, room: int)
    requires count < U32_LIMIT
  {
    (count + 5) % U32_LIMIT <= room
  }

  /** The wrapped guard lets through a batch that does not fit: with
      2^32 - 1 positions to skip and four bytes left it passes. */
  lemma GuardAsWrittenWraps()
    ensures GuardAsWritten(0xFFFF_FFFF, 4)
    ensures !Fits(0xFFFF_FFFF, 4)
  {
  }

  /** Below the wrap the two guards agree, both ways. */
  lemma GuardAsWrittenAgrees(count: nat, room: int)
    requires count + 5 < U32_LIMIT
    ensures GuardAsWritten(count, room) <==> Fits(count, room)
  {
  }

  /** `n` applications of `f` at the positions `pos, pos + 1, ...`. */
  function Iterate(f: (State, nat) -> State, st: State, pos: nat, n: nat): State
    decreases n
  {
    if n == 0 then st else f(Iterate(f, st, pos, n - 1), pos + n - 1)
  }

  /** Iterating over `a` positions and then over the `b` following ones is
      iterating over all `a + b`. */
  lemma {:induction false} IterateSplit(f: (State, nat) -> State, st: State, pos: nat, a: nat, b: nat)
    ensures Iterate(f, st, pos, a + b) == Iterate(f, Iterate(f, st, pos, a), pos + a, b)
    decreases b
  {
    if b > 0 {
      IterateSplit(f, st, pos, a, b - 1);
    }
  }

  /** The search's update at a position, as a function of the state. It is
      only ever applied where `Step` is defined; elsewhere it would leave
      the state alone. */
  function StepAt(hash: HashFn, buf: seq<byte>): (State, nat) -> State
  {
    (st: State, p: nat) =>
      if Valid(st.mf) && InRange(st.nextHashes) && p < |st.mf.nextTab| && p + 5 <= |buf|
      then Step(st, hash, buf, p) else st
  }

  /** The reference: `n` single insertions at `pos, pos + 1, ...`, each
      the update the search makes at its position. */
  function InsertRun(st: State, hash: HashFn, buf: seq<byte>, pos: nat, n: nat): State
  {
    Iterate(StepAt(hash, buf), st, pos, n)
  }

  /** A run keeps the tables well formed and the links as many. */
  lemma {:induction false} InsertRunValid(st: State, hash: HashFn, buf: seq<byte>, pos: nat, n: nat)
    requires Valid(st.mf) && InRange(st.nextHashes)
    ensures var r := InsertRun(st, hash, buf, pos, n);
            Valid(r.mf) && InRange(r.nextHashes) && |r.mf.nextTab| == |st.mf.nextTab|
    decreases n
  {
    if n > 0 {
      InsertRunValid(st, hash, buf, pos, n - 1);
    }
  }

  /** One more step of a run is one more insertion. */
  lemma InsertRunStep(st: State, hash: HashFn, buf: seq<byte>, pos: nat, n: nat)
    requires Valid(st.mf) && InRange(st.nextHashes)
    requires pos + n + 1 <= |st.mf.nextTab| && pos + n + 5 <= |buf|
    ensures var r := InsertRun(st, hash, buf, pos, n);
            Valid(r.mf) && InRange(r.nextHashes) && |r.mf.nextTab| == |st.mf.nextTab|
    ensures InsertRun(st, hash, buf, pos, n + 1) == Step(InsertRun(st, hash, buf, pos, n), hash, buf, pos + n)
  {
    InsertRunValid(st, hash, buf, pos, n);
  }

  /** The body of the skip's do-while loop, in the source's order: the
      3-byte bucket takes `pos`, the link of `pos` takes the 4-byte head
      read before that bucket is overwritten, the 4-byte bucket takes
      `pos`, and the codes of the sequence at `pos + 1` are computed. */
  function SkipInsert(st: State, hash: HashFn, buf: seq<byte>, pos: nat): (r: State)
    requires Valid(st.mf) && InRange(st.nextHashes)
    requires pos < |st.mf.nextTab| && pos + 5 <= |buf|
    ensures Valid(r.mf) && InRange(r.nextHashes) && |r.mf.nextTab| == |st.mf.nextTab|
    ensures r.mf.hash3Tab[st.nextHashes.h3] == pos && r.mf.hash4Tab[st.nextHashes.h4] == pos
    ensures r.mf.nextTab[pos] == st.mf.hash4Tab[st.nextHashes.h4]
    ensures forall i :: 0 <= i < HASH3_SIZE && i != st.nextHashes.h3 ==> r.mf.hash3Tab[i] == st.mf.hash3Tab[i]
    ensures forall i :: 0 <= i < HASH4_SIZE && i != st.nextHashes.h4 ==> r.mf.hash4Tab[i] == st.mf.hash4Tab[i]
    ensures forall p :: 0 <= p < |st.mf.nextTab| && p != pos ==> r.mf.nextTab[p] == st.mf.nextTab[p]
    ensures r.nextHashes.h3 == hash(Load3(buf, pos + 1), HASH3_ORDER)
    ensures r.nextHashes.h4 == hash(Load4(buf, pos + 1), HASH4_ORDER)
  {
    var h := st.nextHashes;
    var hash3Tab := st.mf.hash3Tab[h.h3 := pos];
    var nextTab := st.mf.nextTab[pos := st.mf.hash4Tab[h.h4]];
    var hash4Tab := st.mf.hash4Tab[h.h4 := pos];
    State(MatchFinder(hash3Tab, hash4Tab, nextTab), WindowHashes(hash, buf, pos + 1))
  }

  /** The skip's writes leave the same state as the search's insertion. */
  lemma SkipInsertIsStep(st: State, hash: HashFn, buf: seq<byte>, pos: nat)
    requires Valid(st.mf) && InRange(st.nextHashes)
    requires pos < |st.mf.nextTab| && pos + 5 <= |buf|
    ensures SkipInsert(st, hash, buf, pos) == Step(st, hash, buf, pos)
  {
  }

  /** `hc_matchfinder_skip_positions`: returns the state and `stop`, the
      position `count` past `curPos`. When the batch fits, the do-while
      loop inserts `curPos, ..., curPos + count - 1` one after the other;
      otherwise nothing at all is inserted, not even the positions that
      would fit on their own. Each iteration makes the skip's own writes,
      proved equal to the search's insertion, so the loop meets the
      one-by-one reference `InsertRun`. */
  method SkipPositions(mf: MatchFinder, hash: HashFn, buf: seq<byte>, curPos: nat, endPos: nat,
                       count: nat, nextHashes: Hashes) returns (r: State, stop: nat)
    requires Valid(mf) && InRange(nextHashes)
    requires |buf| <= |mf.nextTab| && endPos <= |buf|
    requires 0 < count < U32_LIMIT
    ensures stop == curPos + count
    ensures Fits(count, endPos - curPos) ==> r == InsertRun(State(mf, nextHashes), hash, buf, curPos, count)
    ensures !Fits(count, endPos - curPos) ==> r == State(mf, nextHashes)
  {
    stop := curPos + count;
    var st0 := State(mf, nextHashes);
    r := st0;
    if count + 5 <= endPos - curPos {
      InsertRunStep(st0, hash, buf, curPos, 0);
      SkipInsertIsStep(r, hash, buf, curPos);
      r := SkipInsert(r, hash, buf, curPos);
      var k := 1;
      while curPos + k != stop
        invariant 1 <= k <= count
        invariant r == InsertRun(st0, hash, buf, curPos, k)
        invariant Valid(r.mf) && InRange(r.nextHashes) && |r.mf.nextTab| == |mf.nextTab|
        decreases count - k
      {
        InsertRunStep(st0, hash, buf, curPos, k);
        SkipInsertIsStep(r, hash, buf, curPos + k);
        r := SkipInsert(r, hash, buf, curPos + k);
        k := k + 1;
      }
    }
  }

  /** Skipping `a` positions and then `b` more is skipping `a + b`. */
  lemma InsertRunSplit(st: State, hash: HashFn, buf: seq<byte>, pos: nat, a: nat, b: nat)
    ensures InsertRun(st, hash, buf, pos, a + b)
            == InsertRun(InsertRun(st, hash, buf, pos, a), hash, buf, pos + a, b)
  {
    IterateSplit(StepAt(hash, buf), st, pos, a, b);
  }

  /** After a nonempty run, `next_hashes` hold the codes of the sequence
      just past it, as `hc_matchfinder_skip_positions` promises. */
  lemma InsertRunHashes(st: State, hash: HashFn, buf: seq<byte>, pos: nat, n: nat)
    requires Valid(st.mf) && InRange(st.nextHashes)
    requires pos + n <= |st.mf.nextTab| && pos + n + 4 <= |buf| && n > 0
    ensures InsertRun(st, hash, buf, pos, n).nextHashes == WindowHashes(hash, buf, pos + n)
  {
    InsertRunStep(st, hash, buf, pos, n - 1);
  }

  /** The last position of a run heads both buckets it was inserted
      under. */
  lemma InsertRunHeads(st: State, hash: HashFn, buf: seq<byte>, pos: nat, m: nat)
    requires Valid(st.mf) && InRange(st.nextHashes)
    requires pos + m + 1 <= |st.mf.nextTab| && pos + m + 5 <= |buf|
    ensures InRange(InsertRun(st, hash, buf, pos, m).nextHashes)
    ensures var h := InsertRun(st, hash, buf, pos, m).nextHashes;
            var r := InsertRun(st, hash, buf, pos, m + 1);
            Valid(r.mf) && r.mf.hash3Tab[h.h3] == pos + m && r.mf.hash4Tab[h.h4] == pos + m
  {
    InsertRunStep(st, hash, buf, pos, m);
  }

  /** The set of inserted positions after a run, one `Added` per step. */
  ghost function RunAdded(ins: set<nat>, pos: nat, n: nat): set<nat>
    decreases n
  {
    if n == 0 then ins else Added(RunAdded(ins, pos, n - 1), pos + n - 1)
  }

  /** A run inserts exactly its positions, except the sentinel 0. */
  lemma {:induction false} RunAddedMembers(ins: set<nat>, pos: nat, n: nat, x: nat)
    ensures x in RunAdded(ins, pos, n) <==> x in ins || (pos <= x < pos + n && x != 0)
    decreases n
  {
    if n > 0 {
      RunAddedMembers(ins, pos, n - 1, x);
    }
  }

  /** One more step of a run keeps the chain invariant. */
  lemma InsertRunStepKeepsInv(st: State, hash: HashFn, buf: seq<byte>, pos: nat, n: nat,
                              ins: set<nat>, lim: nat)
    requires Valid(st.mf) && InRange(st.nextHashes)
    requires ChainInv(InsertRun(st, hash, buf, pos, n).mf, RunAdded(ins, pos, n), lim) && lim <= pos + n
    requires pos + n + 1 <= |st.mf.nextTab| && pos + n + 5 <= |buf|
    ensures ChainInv(InsertRun(st, hash, buf, pos, n + 1).mf, RunAdded(ins, pos, n + 1), pos + n + 1)
  {
    var prev := InsertRun(st, hash, buf, pos, n);
    var next := InsertRun(st, hash, buf, pos, n + 1);
    InsertRunStep(st, hash, buf, pos, n);
    assert next.mf == Insert(prev.mf, pos + n, prev.nextHashes);
    assert RunAdded(ins, pos, n + 1) == Added(RunAdded(ins, pos, n), pos + n);
    InsertedKeepsInv(prev.mf, next.mf, RunAdded(ins, pos, n), RunAdded(ins, pos, n + 1), lim, pos + n, prev.nextHashes);
  }

  /** `InsertKeepsInv`, for a state and a set already known to be the
      insertion's result. */
  lemma InsertedKeepsInv(mf: MatchFinder, mf': MatchFinder, ins: set<nat>, ins': set<nat>, limit: nat,
                         pos: nat, h: Hashes)
    requires ChainInv(mf, ins, limit) && InRange(h) && limit <= pos < |mf.nextTab|
    requires mf' == Insert(mf, pos, h) && ins' == Added(ins, pos)
    ensures ChainInv(mf', ins', pos + 1)
  {
    InsertKeepsInv(mf, ins, limit, pos, h);
  }

  /** A run starting at or above every inserted position keeps the chain
      invariant, with exactly the run's nonzero positions added. */
  lemma {:induction false} InsertRunKeepsInv(st: State, hash: HashFn, buf: seq<byte>, pos: nat, n: nat,
                                             ins: set<nat>, limit: nat)
    requires ChainInv(st.mf, ins, limit) && InRange(st.nextHashes) && limit <= pos
    requires pos + n <= |st.mf.nextTab| && pos + n + 4 <= |buf|
    ensures ChainInv(InsertRun(st, hash, buf, pos, n).mf, RunAdded(ins, pos, n), if n == 0 then limit else pos + n)
    decreases n
  {
    if n == 1 {
      InsertRunStepKeepsInv(st, hash, buf, pos, 0, ins, limit);
    } else if n > 1 {
      InsertRunKeepsInv(st, hash, buf, pos, n - 1, ins, limit);
      InsertRunStepKeepsInv(st, hash, buf, pos, n - 1, ins, pos + n - 1);
    }
  }

  /** A single update followed by a run over the next `n` positions is a
      run over all `n + 1`. */
  lemma StepThenRun(st: State, hash: HashFn, buf: seq<byte>, pos: nat, n: nat)
    requires Valid(st.mf) && InRange(st.nextHashes)
    requires pos < |st.mf.nextTab| && pos + 5 <= |buf|
    ensures InsertRun(Step(st, hash, buf, pos), hash, buf, pos + 1, n) == InsertRun(st, hash, buf, pos, n + 1)
  {
    var first := InsertRun(st, hash, buf, pos, 1);
    InsertRunStep(st, hash, buf, pos, 0);
    assert first == Step(st, hash, buf, pos);
    InsertRunSplit(st, hash, buf, pos, 1, n);
    assert InsertRun(st, hash, buf, pos, n + 1) == InsertRun(first, hash, buf, pos + 1, n);
  }

  /** A search that inserts its position, followed by a run over the next
      `n` positions, leaves the same index as a run over all `n + 1`: the
      parser may mix searches and skips freely. */
  lemma SearchThenSkip(filter: Filter, mf: MatchFinder, hash: HashFn, buf: seq<byte>, curPos: nat,
                       bestLen: nat, maxLen: nat, niceLen: nat, maxDepth: nat, nextHashes: Hashes,
                       ins: set<nat>, n: nat)
    requires ChainInv(mf, ins, curPos) && InRange(nextHashes)
    requires |buf| <= |mf.nextTab| && curPos + maxLen <= |buf|
    requires niceLen <= maxLen && maxDepth >= 1 && 5 <= maxLen
    ensures var r := LongestMatch(filter, mf, hash, buf, curPos, bestLen, maxLen, niceLen, maxDepth, nextHashes, ins);
            InsertRun(State(r.mf, r.nextHashes), hash, buf, curPos + 1, n)
            == InsertRun(State(mf, nextHashes), hash, buf, curPos, n + 1)
  {
    StepThenRun(State(mf, nextHashes), hash, buf, curPos, n);
  }
}
