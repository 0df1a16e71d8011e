/** Worked searches over short buffers, for any hash function and any
    prior content of the link table. */
module Scenarios {
  import opened Bytes
  import opened LzHash
  import opened MatchIndex
  import opened Search
  import opened Skip

  /** "AAAAAAAAAA". */
  function Repeated(): (r: seq<byte>)
    ensures |r| == 10 && forall i :: 0 <= i < 10 ==> r[i] == 65
  {
    seq(10, _ => 65)
  }

  /** "ABCDEFGHIJ" cut to `n` bytes. */
  function Distinct(n: nat): (r: seq<byte>)
    requires n <= 10
    ensures |r| == n && forall i :: 0 <= i < n ==> r[i] == 65 + i
  {
    seq(n, i => 65 + i)
  }

  /** "ABCXABCYZ". */
  function Abcx(): (r: seq<byte>)
    ensures |r| == 9
  {
    [65, 66, 67, 88, 65, 66, 67, 89, 90]
  }

  /** A search finds nothing it could report when no earlier position
      shares its first byte. */
  lemma NoMatchWithoutSharedByte(filter: Filter, mf: MatchFinder, hash: HashFn, buf: seq<byte>, curPos: nat,
                                 bestLen: nat, maxLen: nat, niceLen: nat, maxDepth: nat, nextHashes: Hashes,
                                 ins: set<nat>)
    requires ChainInv(mf, ins, curPos) && InRange(nextHashes)
    requires |buf| <= |mf.nextTab| && curPos + maxLen <= |buf|
    requires niceLen <= maxLen && maxDepth >= 1 && curPos < |buf|
    requires forall p :: p in ins ==> buf[p] != buf[curPos]
    ensures var r := LongestMatch(filter, mf, hash, buf, curPos, bestLen, maxLen, niceLen, maxDepth, nextHashes, ins);
            r.length == bestLen && r.offset == 0
  {
    var r := LongestMatch(filter, mf, hash, buf, curPos, bestLen, maxLen, niceLen, maxDepth, nextHashes, ins);
    if r.length > bestLen {
      MatchesFirst(buf, curPos, curPos - r.offset, r.length);
      assert false;
    }
  }

  /** Skipping positions 0 to 3 of "AAAAAAAAAA" from a fresh index leaves
      position 3 at the head of both buckets of the sequence at 4. */
  lemma RepeatedByteIndex(mf0: MatchFinder, hash: HashFn, h0: Hashes)
    requires |mf0.nextTab| >= 10 && InRange(h0)
    ensures var st := InsertRun(State(Init(mf0), h0), hash, Repeated(), 0, 4);
            && ChainInv(st.mf, RunAdded({}, 0, 4), 4) && 3 in RunAdded({}, 0, 4)
            && |st.mf.nextTab| == |mf0.nextTab| && InRange(st.nextHashes)
            && st.mf.hash3Tab[st.nextHashes.h3] == 3 && st.mf.hash4Tab[st.nextHashes.h4] == 3
  {
    var buf := Repeated();
    var st0 := State(Init(mf0), h0);
    InsertRunKeepsInv(st0, hash, buf, 0, 4, {}, 0);
    InsertRunValid(st0, hash, buf, 0, 4);
    InsertRunHeads(st0, hash, buf, 0, 3);
    InsertRunHashes(st0, hash, buf, 0, 3);
    InsertRunHashes(st0, hash, buf, 0, 4);
    RunAddedMembers({}, 0, 4, 3);
    RepeatedHashes(hash);
  }

  /** Every position of "AAAAAAAAAA" hashes alike. */
  lemma RepeatedHashes(hash: HashFn)
    ensures WindowHashes(hash, Repeated(), 3) == WindowHashes(hash, Repeated(), 4)
  {
    var buf := Repeated();
    assert buf[3..7] == buf[4..8];
    WindowHashesAgree(hash, buf, 3, 4);
  }

  /** A search at position 4 of "AAAAAAAAAA" whose buckets both hold
      position 3 finds the six-byte match one byte back. */
  lemma RepeatedByteSearch(filter: Filter, mf: MatchFinder, hash: HashFn, nextHashes: Hashes, ins: set<nat>)
    requires ChainInv(mf, ins, 4) && InRange(nextHashes) && |mf.nextTab| >= 10 && 3 in ins
    requires mf.hash3Tab[nextHashes.h3] == 3 && mf.hash4Tab[nextHashes.h4] == 3
    ensures var r := LongestMatch(filter, mf, hash, Repeated(), 4, 0, 6, 6, 4, nextHashes, ins);
            r.length == 6 && r.offset == 1
  {
    var buf := Repeated();
    assert buf[4..8] == buf[3..7];
    Load4Equal(buf, 3, 4);
    assert buf[4..10] == buf[3..9];
    ExtendUnique(buf, 4, 3, 4, 6, 6);
  }

  /** Searching at position 4 of "AAAAAAAAAA" after skipping positions 0
      to 3 from a fresh index finds the six-byte match one byte back. */
  lemma RepeatedByteScenario(filter: Filter, mf0: MatchFinder, hash: HashFn, h0: Hashes)
    requires |mf0.nextTab| >= 10 && InRange(h0)
    ensures Fits(4, 10)
    ensures var st := InsertRun(State(Init(mf0), h0), hash, Repeated(), 0, 4);
            var ins := RunAdded({}, 0, 4);
            ChainInv(st.mf, ins, 4) && InRange(st.nextHashes) && |st.mf.nextTab| >= 10 &&
            var r := LongestMatch(filter, st.mf, hash, Repeated(), 4, 0, 6, 6, 4, st.nextHashes, ins);
            r.length == 6 && r.offset == 1
  {
    RepeatedByteIndex(mf0, hash, h0);
    var st := InsertRun(State(Init(mf0), h0), hash, Repeated(), 0, 4);
    RepeatedByteSearch(filter, st.mf, hash, st.nextHashes, RunAdded({}, 0, 4));
  }

  /** Searching at the very first position: nothing has been inserted, so
      nothing is found. */
  lemma FirstPositionScenario(filter: Filter, mf: MatchFinder, hash: HashFn, nextHashes: Hashes, ins: set<nat>)
    requires ChainInv(mf, ins, 0) && InRange(nextHashes) && |mf.nextTab| >= 8
    ensures var r := LongestMatch(filter, mf, hash, Distinct(8), 0, 0, 5, 5, 4, nextHashes, ins);
            r.length == 0 && r.offset == 0
  {
  }

  /** Searching at position 4 of "ABCXABCYZ" finds nothing, whatever came
      before: the three bytes "ABC" recur only at position 0, and position
      0 is the value that marks an empty bucket. */
  lemma SentinelScenario(filter: Filter, mf: MatchFinder, hash: HashFn, nextHashes: Hashes, ins: set<nat>)
    requires ChainInv(mf, ins, 4) && InRange(nextHashes) && |mf.nextTab| >= 9
    ensures Matches(Abcx(), 4, 0, 3)
    ensures var r := LongestMatch(filter, mf, hash, Abcx(), 4, 0, 5, 5, 4, nextHashes, ins);
            r.length == 0 && r.offset == 0
  {
    var buf := Abcx();
    assert buf[4..7] == buf[0..3];
    assert Linked(mf.nextTab, ins);
    NoMatchWithoutSharedByte(filter, mf, hash, buf, 4, 0, 5, 5, 4, nextHashes, ins);
  }

  /** Skipping positions 0 to 2 of "ABCDEFGHIJ" from a fresh index, then
      searching at position 3, finds nothing: the skip inserted positions
      1 and 2, whose content differs. */
  lemma SkipThenSearchScenario(filter: Filter, mf0: MatchFinder, hash: HashFn, h0: Hashes)
    requires |mf0.nextTab| >= 10 && InRange(h0)
    ensures Fits(3, 10)
    ensures var st := InsertRun(State(Init(mf0), h0), hash, Distinct(10), 0, 3);
            var ins := RunAdded({}, 0, 3);
            ChainInv(st.mf, ins, 3) && InRange(st.nextHashes) &&
            var r := LongestMatch(filter, st.mf, hash, Distinct(10), 3, 0, 5, 5, 4, st.nextHashes, ins);
            r.length == 0 && r.offset == 0
  {
    var buf := Distinct(10);
    var st0 := State(Init(mf0), h0);
    var ins := RunAdded({}, 0, 3);
    InsertRunKeepsInv(st0, hash, buf, 0, 3, {}, 0);
    InsertRunValid(st0, hash, buf, 0, 3);
    var st := InsertRun(st0, hash, buf, 0, 3);
    forall p | p in ins
      ensures buf[p] != buf[3]
    {
      RunAddedMembers({}, 0, 3, p);
    }
    NoMatchWithoutSharedByte(filter, st.mf, hash, buf, 3, 0, 5, 5, 4, st.nextHashes, ins);
  }
}
