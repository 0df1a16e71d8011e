/** The match index of `struct hc_matchfinder`: a 3-byte hash table with one
    slot per bucket, a 4-byte hash table holding the head of a chain per
    bucket, and one "next older position" link per buffer position. Position
    0 doubles as the "empty" value in all three tables. */
module MatchIndex {
  import opened Bytes
  import opened LzHash

  /** `struct hc_matchfinder`; `nextTab` has one slot per position of the
      largest buffer the matchfinder was sized for. */
  datatype MatchFinder = MatchFinder(hash3Tab: seq<nat>, hash4Tab: seq<nat>, nextTab: seq<nat>)

  /** The two hash tables have their fixed bucket counts. */
  predicate Valid(mf: MatchFinder)
  {
    |mf.hash3Tab| == HASH3_SIZE && |mf.hash4Tab| == HASH4_SIZE
  }

  /** `hc_matchfinder_size`: the fixed part of the structure plus one 4-byte
      link per buffer position. */
  function Size(maxBufsize: nat): nat
  {
    4 * (HASH3_SIZE + HASH4_SIZE) + maxBufsize * 4
  }

  /** Every 32-bit cell of the three tables is accounted for by `Size`. */
  lemma SizeCoversTables(mf: MatchFinder)
    requires Valid(mf)
    ensures Size(|mf.nextTab|) == 4 * (|mf.hash3Tab| + |mf.hash4Tab| + |mf.nextTab|)
  {
  }

  /** `hc_matchfinder_init`: clears both hash tables. The clearing covers
      the fixed-size part of the structure only, so the links keep whatever
      they held before. */
  function Init(mf: MatchFinder): (r: MatchFinder)
    ensures Valid(r)
    ensures forall i :: 0 <= i < |r.hash3Tab| ==> r.hash3Tab[i] == 0
    ensures forall i :: 0 <= i < |r.hash4Tab| ==> r.hash4Tab[i] == 0
    ensures r.nextTab == mf.nextTab
    ensures ChainInv(r, {}, 0)
  {
    MatchFinder(seq(HASH3_SIZE, _ => 0), seq(HASH4_SIZE, _ => 0), mf.nextTab)
  }

  /** The update rule shared by the search and the skip: the 3-byte bucket
      is overwritten with `pos`, and `pos` is prepended to the 4-byte chain,
      its link taking the old head. */
  function Insert(mf: MatchFinder, pos: nat, h: Hashes): (r: MatchFinder)
    requires Valid(mf) && InRange(h) && pos < |mf.nextTab|
    ensures Valid(r) && |r.nextTab| == |mf.nextTab|
    ensures r.hash3Tab[h.h3] == pos && r.hash4Tab[h.h4] == pos
    ensures r.nextTab[pos] == mf.hash4Tab[h.h4]
    ensures forall i :: 0 <= i < HASH3_SIZE && i != h.h3 ==> r.hash3Tab[i] == mf.hash3Tab[i]
    ensures forall i :: 0 <= i < HASH4_SIZE && i != h.h4 ==> r.hash4Tab[i] == mf.hash4Tab[i]
    ensures forall p :: 0 <= p < |mf.nextTab| && p != pos ==> r.nextTab[p] == mf.nextTab[p]
  {
    MatchFinder(mf.hash3Tab[h.h3 := pos], mf.hash4Tab[h.h4 := pos],
                mf.nextTab[pos := mf.hash4Tab[h.h4]])
  }

  /** The tables together with the precomputed `next_hashes`. */
  datatype State = State(mf: MatchFinder, nextHashes: Hashes)

  /** One insertion of `pos` followed by hashing the sequence at `pos + 1`,
      as the search does when at least five bytes are available. */
  function Step(st: State, hash: HashFn, buf: seq<byte>, pos: nat): (r: State)
    requires Valid(st.mf) && InRange(st.nextHashes)
    requires pos < |st.mf.nextTab| && pos + 5 <= |buf|
    ensures Valid(r.mf) && InRange(r.nextHashes) && |r.mf.nextTab| == |st.mf.nextTab|
    ensures r.mf.hash3Tab[st.nextHashes.h3] == pos && r.mf.hash4Tab[st.nextHashes.h4] == pos
    ensures r.mf.nextTab[pos] == st.mf.hash4Tab[st.nextHashes.h4]
    ensures forall i :: 0 <= i < HASH3_SIZE && i != st.nextHashes.h3 ==> r.mf.hash3Tab[i] == st.mf.hash3Tab[i]
    ensures forall i :: 0 <= i < HASH4_SIZE && i != st.nextHashes.h4 ==> r.mf.hash4Tab[i] == st.mf.hash4Tab[i]
    ensures forall p :: 0 <= p < |st.mf.nextTab| && p != pos ==> r.mf.nextTab[p] == st.mf.nextTab[p]
    ensures r.nextHashes.h3 == hash(Load3(buf, pos + 1), HASH3_ORDER)
    ensures r.nextHashes.h4 == hash(Load4(buf, pos + 1), HASH4_ORDER)
  {
    State(Insert(st.mf, pos, st.nextHashes), WindowHashes(hash, buf, pos + 1))
  }

  // ---------------------------------------------------------------------
  // The chain invariant

  /** A table value is either the empty sentinel 0 or an inserted position. */
  ghost predicate Entry(p: nat, ins: set<nat>)
  {
    p == 0 || p in ins
  }

  /** The link of every inserted position was written when it was inserted:
      it points strictly backwards, to another inserted position or to 0. */
  ghost predicate Linked(next: seq<nat>, ins: set<nat>)
  {
    && (forall p {:trigger p in ins} :: p in ins ==> 0 < p < |next|)
    && (forall p {:trigger next[p]} :: p in ins ==> next[p] < p && Entry(next[p], ins))
  }

  /** The state of the index after inserting the positions in `ins` (and
      perhaps position 0, which is indistinguishable from "empty") in
      increasing order, all of them below `limit`. Links of positions never
      inserted hold arbitrary values and are never followed. */
  ghost predicate ChainInv(mf: MatchFinder, ins: set<nat>, limit: nat)
  {
    && Valid(mf)
    && Linked(mf.nextTab, ins)
    && (forall p :: p in ins ==> p < limit)
    && (forall i :: 0 <= i < |mf.hash3Tab| ==> Entry(mf.hash3Tab[i], ins))
    && (forall i :: 0 <= i < |mf.hash4Tab| ==> Entry(mf.hash4Tab[i], ins))
  }

  /** Strictly decreasing positions: newest first. */
  ghost predicate Decreasing(c: seq<nat>)
  {
    forall i, j :: 0 <= i < j < |c| ==> c[i] > c[j]
  }

  /** The positions visited by following links from `p` until the sentinel. */
  ghost function Chain(next: seq<nat>, ins: set<nat>, p: nat): (c: seq<nat>)
    requires Linked(next, ins) && Entry(p, ins)
    ensures c == [] <==> p == 0
    ensures c != [] ==> c[0] == p
    ensures forall i :: 0 <= i < |c| ==> c[i] in ins
    ensures forall i :: 0 <= i < |c| - 1 ==> next[c[i]] == c[i + 1]
    ensures c != [] ==> next[c[|c| - 1]] == 0
    ensures Decreasing(c)
    decreases p
  {
    if p == 0 then [] else [p] + Chain(next, ins, next[p])
  }

  /** The positions `Insert` adds to the set of inserted positions: position
      0 is never really added, since 0 means "empty". */
  ghost function Added(ins: set<nat>, pos: nat): set<nat>
  {
    if pos == 0 then ins else ins + {pos}
  }

  /** Inserting a position at or above every earlier one keeps the chain
      invariant. */
  lemma InsertKeepsInv(mf: MatchFinder, ins: set<nat>, limit: nat, pos: nat, h: Hashes)
    requires ChainInv(mf, ins, limit) && InRange(h)
    requires limit <= pos < |mf.nextTab|
    ensures ChainInv(Insert(mf, pos, h), Added(ins, pos), pos + 1)
  {
    var r := Insert(mf, pos, h);
    var ins' := Added(ins, pos);
    forall p | p in ins'
      ensures 0 < p < |r.nextTab| && r.nextTab[p] < p && Entry(r.nextTab[p], ins')
    {
      if p != pos {
        assert p in ins;
      }
    }
    forall i | 0 <= i < |r.hash3Tab|
      ensures Entry(r.hash3Tab[i], ins')
    {
      if i != h.h3 {
        assert Entry(mf.hash3Tab[i], ins);
      }
    }
    forall i | 0 <= i < |r.hash4Tab|
      ensures Entry(r.hash4Tab[i], ins')
    {
      if i != h.h4 {
        assert Entry(mf.hash4Tab[i], ins);
      }
    }
  }

  /** A chain only reads links of the positions it visits, so it is the
      same in any table that agrees on the inserted positions. */
  lemma {:induction false} ChainFrame(n1: seq<nat>, i1: set<nat>, n2: seq<nat>, i2: set<nat>, p: nat)
    requires Linked(n1, i1) && Linked(n2, i2) && i1 <= i2
    requires forall q :: q in i1 ==> q < |n2| && n2[q] == n1[q]
    requires Entry(p, i1)
    ensures Chain(n1, i1, p) == Chain(n2, i2, p)
    decreases p
  {
    if p != 0 {
      ChainFrame(n1, i1, n2, i2, n1[p]);
    }
  }

  /** Inserting a nonzero position prepends it to the chain of its 4-byte
      bucket and leaves the chain of every other bucket as it was. */
  lemma InsertPrepends(mf: MatchFinder, ins: set<nat>, limit: nat, pos: nat, h: Hashes)
    requires ChainInv(mf, ins, limit) && InRange(h)
    requires limit <= pos < |mf.nextTab| && 0 < pos
    ensures ChainInv(Insert(mf, pos, h), ins + {pos}, pos + 1)
    ensures Chain(Insert(mf, pos, h).nextTab, ins + {pos}, pos)
            == [pos] + Chain(mf.nextTab, ins, mf.hash4Tab[h.h4])
    ensures forall b :: 0 <= b < HASH4_SIZE && b != h.h4 ==>
              Chain(Insert(mf, pos, h).nextTab, ins + {pos}, Insert(mf, pos, h).hash4Tab[b])
              == Chain(mf.nextTab, ins, mf.hash4Tab[b])
  {
    var r := Insert(mf, pos, h);
    var ins' := ins + {pos};
    InsertKeepsInv(mf, ins, limit, pos, h);
    assert Added(ins, pos) == ins';
    ChainFrame(mf.nextTab, ins, r.nextTab, ins', mf.hash4Tab[h.h4]);
    forall b | 0 <= b < HASH4_SIZE && b != h.h4
      ensures Chain(r.nextTab, ins', r.hash4Tab[b]) == Chain(mf.nextTab, ins, mf.hash4Tab[b])
    {
      ChainFrame(mf.nextTab, ins, r.nextTab, ins', mf.hash4Tab[b]);
    }
  }

  /** Every position on a chain is an inserted one, hence nonzero and below
      the limit: a chain never offers position 0 or the current position as
      a candidate. */
  lemma ChainBelow(mf: MatchFinder, ins: set<nat>, limit: nat, b: nat)
    requires ChainInv(mf, ins, limit) && b < HASH4_SIZE
    ensures forall x :: x in Chain(mf.nextTab, ins, mf.hash4Tab[b]) ==> 0 < x < limit
  {
  }
}
