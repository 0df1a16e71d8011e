/** `hc_matchfinder_longest_match`: insert the current position, check one
    close 3-byte candidate, then walk the 4-byte chain newest to oldest. */
module Search {
  import opened Bytes
  import opened LzHash
  import opened MatchIndex

  /** The two builds of the cheap rejection test in the chain walk:
      `WordFilter` compares the four bytes ending just past the current best
      length and the first four bytes (UNALIGNED_ACCESS_IS_FAST, which the
      MSVC configuration sets); `ByteFilter` compares only the byte just past
      the current best length. */
  datatype Filter = WordFilter | ByteFilter

  /** The best match so far: its length and its position (`best_matchptr`);
      the position is the current one while nothing has been found. */
  datatype Best = Best(len: nat, pos: nat)

  /** What a search returns and leaves behind: the updated tables and
      `next_hashes`, the length, and the offset back to the match. */
  datatype SearchResult = SearchResult(mf: MatchFinder, nextHashes: Hashes, length: nat, offset: nat)

  /** What the chain walk relies on: every position reachable through the
      links is an inserted position before `curPos`, and `max_len` bytes are
      readable at `curPos`. */
  ghost predicate WalkCtx(next: seq<nat>, ins: set<nat>, buf: seq<byte>, curPos: nat, maxLen: nat)
  {
    && Linked(next, ins)
    && (forall p :: p in ins ==> p < curPos)
    && curPos + maxLen <= |buf|
    && 5 <= maxLen
  }

  /** The first `k` chain nodes (all of them if there are fewer). */
  function Take(s: seq<nat>, k: nat): (r: seq<nat>)
    ensures |r| == if k <= |s| then k else |s|
    ensures forall i :: 0 <= i < |r| ==> r[i] == s[i]
  {
    if k <= |s| then s[..k] else s
  }

  // ---------------------------------------------------------------------
  // Reference: the newest-first scan of a list of candidates

  /** Scan candidates in order, replacing the best only by a strictly
      longer match of at least four bytes, and stopping as soon as the best
      reaches `niceLen`. */
  function Scan(buf: seq<byte>, curPos: nat, maxLen: nat, niceLen: nat, cands: seq<nat>, best: Best): (r: Best)
    requires curPos + maxLen <= |buf|
    requires forall i :: 0 <= i < |cands| ==> cands[i] < curPos
    ensures r.len >= best.len && (r.len == best.len ==> r == best)
    ensures r.len > best.len ==> r.pos in cands && 4 <= r.len && CommonLen(buf, curPos, r.pos, maxLen) == r.len
    decreases |cands|
  {
    if |cands| == 0 then best
    else
      var c := cands[0];
      var len := CommonLen(buf, curPos, c, maxLen);
      if 4 <= len && len > best.len then
        if len >= niceLen then Best(len, c)
        else Scan(buf, curPos, maxLen, niceLen, cands[1..], Best(len, c))
      else
        Scan(buf, curPos, maxLen, niceLen, cands[1..], best)
  }

  /** Unless the scan stopped early at `niceLen`, no candidate of four or
      more bytes has a longer common run than the result. */
  lemma {:induction false} ScanFindsLongest(buf: seq<byte>, curPos: nat, maxLen: nat, niceLen: nat,
                                            cands: seq<nat>, best: Best)
    requires curPos + maxLen <= |buf|
    requires forall i :: 0 <= i < |cands| ==> cands[i] < curPos
    ensures var r := Scan(buf, curPos, maxLen, niceLen, cands, best);
            r.len < niceLen ==>
              forall i :: 0 <= i < |cands| && 4 <= CommonLen(buf, curPos, cands[i], maxLen) ==>
                CommonLen(buf, curPos, cands[i], maxLen) <= r.len
    decreases |cands|
  {
    var r := Scan(buf, curPos, maxLen, niceLen, cands, best);
    if |cands| > 0 && r.len < niceLen {
      var rest := cands[1..];
      var len := CommonLen(buf, curPos, cands[0], maxLen);
      var b' := if 4 <= len && len > best.len then Best(len, cands[0]) else best;
      assert r == Scan(buf, curPos, maxLen, niceLen, rest, b');
      ScanFindsLongest(buf, curPos, maxLen, niceLen, rest, b');
      forall i | 0 <= i < |cands| && 4 <= CommonLen(buf, curPos, cands[i], maxLen)
        ensures CommonLen(buf, curPos, cands[i], maxLen) <= r.len
      {
        if i > 0 {
          assert cands[i] == rest[i - 1];
        }
      }
    }
  }

  /** The candidates before index `k` are all shorter than `len`, and none
      of them was a match of four or more bytes that both beat `bestLen` and
      reached `niceLen`. */
  ghost predicate Beaten(buf: seq<byte>, curPos: nat, maxLen: nat, niceLen: nat, cands: seq<nat>,
                         k: nat, len: nat, bestLen: nat)
    requires curPos + maxLen <= |buf| && k <= |cands|
    requires forall i :: 0 <= i < |cands| ==> cands[i] < curPos
  {
    forall j :: 0 <= j < k ==> BeatenAt(buf, curPos, maxLen, niceLen, cands[j], len, bestLen)
  }

  ghost predicate BeatenAt(buf: seq<byte>, curPos: nat, maxLen: nat, niceLen: nat, c: nat, len: nat, bestLen: nat)
    requires curPos + maxLen <= |buf| && c < curPos
  {
    var l := CommonLen(buf, curPos, c, maxLen);
    l < len && (l < 4 || l < niceLen || l <= bestLen)
  }

  lemma BeatenCons(buf: seq<byte>, curPos: nat, maxLen: nat, niceLen: nat, cands: seq<nat>,
                   k: nat, len: nat, b0: nat, b1: nat)
    requires curPos + maxLen <= |buf| && 0 < |cands| && k < |cands|
    requires forall i :: 0 <= i < |cands| ==> cands[i] < curPos
    requires Beaten(buf, curPos, maxLen, niceLen, cands[1..], k, len, b1)
    requires BeatenAt(buf, curPos, maxLen, niceLen, cands[0], len, b0)
    requires b1 < niceLen || b1 <= b0
    ensures Beaten(buf, curPos, maxLen, niceLen, cands, k + 1, len, b0)
  {
    forall j | 0 <= j < k + 1
      ensures BeatenAt(buf, curPos, maxLen, niceLen, cands[j], len, b0)
    {
      if j > 0 {
        assert cands[j] == cands[1..][j - 1];
        assert BeatenAt(buf, curPos, maxLen, niceLen, cands[1..][j - 1], len, b1);
      }
    }
  }

  /** A new best is the first candidate of its length: every candidate
      before it is shorter, and the scan stopped at the first candidate of
      four or more bytes that reached `niceLen`. */
  lemma {:induction false} ScanPicksFirst(buf: seq<byte>, curPos: nat, maxLen: nat, niceLen: nat,
                                          cands: seq<nat>, best: Best) returns (k: nat)
    requires curPos + maxLen <= |buf|
    requires forall i :: 0 <= i < |cands| ==> cands[i] < curPos
    requires Scan(buf, curPos, maxLen, niceLen, cands, best).len > best.len
    ensures k < |cands| && cands[k] == Scan(buf, curPos, maxLen, niceLen, cands, best).pos
    ensures Beaten(buf, curPos, maxLen, niceLen, cands, k, Scan(buf, curPos, maxLen, niceLen, cands, best).len, best.len)
    decreases |cands|
  {
    var r := Scan(buf, curPos, maxLen, niceLen, cands, best);
    var rest := cands[1..];
    var len := CommonLen(buf, curPos, cands[0], maxLen);
    if 4 <= len && len > best.len {
      if len >= niceLen || r.len == len {
        k := 0;
      } else {
        var b' := Best(len, cands[0]);
        assert r == Scan(buf, curPos, maxLen, niceLen, rest, b');
        var k' := ScanPicksFirst(buf, curPos, maxLen, niceLen, rest, b');
        BeatenCons(buf, curPos, maxLen, niceLen, cands, k', r.len, best.len, len);
        k := k' + 1;
      }
    } else {
      assert r == Scan(buf, curPos, maxLen, niceLen, rest, best);
      var k' := ScanPicksFirst(buf, curPos, maxLen, niceLen, rest, best);
      BeatenCons(buf, curPos, maxLen, niceLen, cands, k', r.len, best.len, best.len);
      k := k' + 1;
    }
  }

  /** On newest-first candidates, the scan's new best is the newest
      candidate of its length, and every newer one was beaten. */
  lemma ScanNewestFirst(buf: seq<byte>, curPos: nat, maxLen: nat, niceLen: nat, cands: seq<nat>, best: Best)
    requires curPos + maxLen <= |buf|
    requires forall i :: 0 <= i < |cands| ==> cands[i] < curPos
    requires Decreasing(cands)
    requires Scan(buf, curPos, maxLen, niceLen, cands, best).len > best.len
    ensures var r := Scan(buf, curPos, maxLen, niceLen, cands, best);
            && r.pos in cands
            && forall x :: x in cands && x > r.pos ==> BeatenAt(buf, curPos, maxLen, niceLen, x, r.len, best.len)
  {
    var r := Scan(buf, curPos, maxLen, niceLen, cands, best);
    var k := ScanPicksFirst(buf, curPos, maxLen, niceLen, cands, best);
    forall x | x in cands && x > r.pos
      ensures BeatenAt(buf, curPos, maxLen, niceLen, x, r.len, best.len)
    {
      var j :| 0 <= j < |cands| && cands[j] == x;
      assert j < k;
    }
  }

  /** `m` is one of the candidates, and every candidate newer than `m` has
      a common run shorter than `len`, and is not an improvement on
      `bestLen` of four or more bytes that reaches `niceLen`. */
  ghost predicate NewestOfLength(buf: seq<byte>, curPos: nat, maxLen: nat, niceLen: nat, bestLen: nat,
                                 cands: seq<nat>, len: nat, m: nat)
    requires curPos + maxLen <= |buf|
    requires forall i :: 0 <= i < |cands| ==> cands[i] < curPos
  {
    && m in cands
    && forall x :: x in cands && x > m ==>
         && CommonLen(buf, curPos, x, maxLen) < len
         && (CommonLen(buf, curPos, x, maxLen) < 4 || CommonLen(buf, curPos, x, maxLen) < niceLen
             || CommonLen(buf, curPos, x, maxLen) <= bestLen)
  }

  /** `ScanNewestFirst` for a reported match of four or more bytes that is
      the result of the scan seeded with the short check, read against the
      caller's `bestLen`. */
  lemma ReportNewestFirst(buf: seq<byte>, curPos: nat, maxLen: nat, niceLen: nat, bestLen: nat,
                          cands: seq<nat>, cur3: nat, len: nat, m: nat)
    requires curPos + maxLen <= |buf|
    requires forall i :: 0 <= i < |cands| ==> cands[i] < curPos
    requires Decreasing(cands)
    requires len > bestLen && len >= 4 ==>
               Best(len, m) == Scan(buf, curPos, maxLen, niceLen, cands, ShortStart(buf, curPos, cur3, bestLen))
    ensures len > bestLen && len >= 4 ==> NewestOfLength(buf, curPos, maxLen, niceLen, bestLen, cands, len, m)
  {
    if len > bestLen && len >= 4 {
      var b := ShortStart(buf, curPos, cur3, bestLen);
      ScanNewestFirst(buf, curPos, maxLen, niceLen, cands, b);
      forall x | x in cands && x > m
        ensures CommonLen(buf, curPos, x, maxLen) < len
        ensures CommonLen(buf, curPos, x, maxLen) < 4 || CommonLen(buf, curPos, x, maxLen) < niceLen
                || CommonLen(buf, curPos, x, maxLen) <= bestLen
      {
        assert BeatenAt(buf, curPos, maxLen, niceLen, x, len, b.len);
      }
    }
  }

  // ---------------------------------------------------------------------
  // The rejection filter

  /** The cheap test at the top of the longer-match loop. */
  predicate Pass(filter: Filter, buf: seq<byte>, curPos: nat, m: nat, len: nat)
    requires m < curPos && 4 <= len && curPos + len + 1 <= |buf|
  {
    match filter
    case WordFilter =>
      Load4(buf, m + len - 3) == Load4(buf, curPos + len - 3) && Load4(buf, m) == Load4(buf, curPos)
    case ByteFilter =>
      buf[m + len] == buf[curPos + len]
  }

  /** How many bytes the extension after a passed filter takes as equal. */
  function StartLen(filter: Filter): nat
  {
    match filter
    case WordFilter => 4
    case ByteFilter => 0
  }

  /** The filter is sound: a candidate passes with its first `StartLen`
      bytes really equal, and a rejected candidate has a common run of at
      most `len` bytes, so it could not have replaced a best of `len`. */
  lemma PassSound(filter: Filter, buf: seq<byte>, curPos: nat, m: nat, len: nat, maxLen: nat)
    requires m < curPos && 4 <= len < maxLen && curPos + maxLen <= |buf|
    ensures Pass(filter, buf, curPos, m, len) ==>
              buf[curPos..curPos + StartLen(filter)] == buf[m..m + StartLen(filter)]
    ensures !Pass(filter, buf, curPos, m, len) ==> CommonLen(buf, curPos, m, maxLen) <= len
  {
    match filter
    case ByteFilter =>
      if buf[m + len] != buf[curPos + len] {
        CommonLenBelowMismatch(buf, curPos, m, maxLen, len);
      }
    case WordFilter =>
      Load4Equal(buf, m, curPos);
      if CommonLen(buf, curPos, m, maxLen) > len {
        WordFilterPasses(buf, curPos, m, len, maxLen);
      }
  }

  /** A candidate whose common run exceeds `len` passes the word filter. */
  lemma WordFilterPasses(buf: seq<byte>, curPos: nat, m: nat, len: nat, maxLen: nat)
    requires m < curPos && 4 <= len < maxLen && curPos + maxLen <= |buf|
    requires CommonLen(buf, curPos, m, maxLen) > len
    ensures Pass(WordFilter, buf, curPos, m, len)
  {
    CommonLenAtLeast(buf, curPos, m, maxLen, len + 1);
    var a := buf[curPos..curPos + len + 1];
    var b := buf[m..m + len + 1];
    assert buf[curPos..curPos + 4] == a[..4];
    assert buf[m..m + 4] == b[..4];
    assert buf[curPos + len - 3..curPos + len + 1] == a[len - 3..];
    assert buf[m + len - 3..m + len + 1] == b[len - 3..];
    Load4Equal(buf, m, curPos);
    Load4Equal(buf, m + len - 3, curPos + len - 3);
  }

  // ---------------------------------------------------------------------
  // The chain walks

  /** One node of the longer-match loop: the cheap filter, then the
      extension, replacing the best only by a strictly longer match. The
      filter only discards candidates that could not have won, so this is
      the plain comparison of the common run with the best length. */
  function Consider(filter: Filter, buf: seq<byte>, curPos: nat, maxLen: nat, node: nat, best: Best): (r: Best)
    requires node < curPos && curPos + maxLen <= |buf| && 4 <= best.len < maxLen
    ensures r == if CommonLen(buf, curPos, node, maxLen) > best.len
                 then Best(CommonLen(buf, curPos, node, maxLen), node) else best
  {
    PassSound(filter, buf, curPos, node, best.len, maxLen);
    if Pass(filter, buf, curPos, node, best.len) then
      var len := Extend(buf, curPos, node, StartLen(filter), maxLen);
      ExtendFromAnyStart(buf, curPos, node, StartLen(filter), maxLen);
      if len > best.len then Best(len, node) else best
    else best
  }

  /** The longer-match loop: from `node`, with `depth` nodes left to
      inspect, look for a match longer than the current best of at least
      four bytes. */
  function LongerMatch(filter: Filter, next: seq<nat>, ghost ins: set<nat>, buf: seq<byte>, curPos: nat,
                       maxLen: nat, niceLen: nat, node: nat, depth: nat, best: Best): (r: Best)
    requires WalkCtx(next, ins, buf, curPos, maxLen) && node in ins && depth >= 1
    requires 4 <= best.len < niceLen <= maxLen
    ensures r.len >= best.len && (r.len == best.len ==> r == best)
    ensures r.len > best.len ==> r.pos in ins && r.len <= maxLen && Matches(buf, curPos, r.pos, r.len)
    decreases depth
  {
    var best' := Consider(filter, buf, curPos, maxLen, node, best);
    if best'.len >= niceLen then best'
    else
      var n := next[node];
      if n == 0 || depth - 1 == 0 then best'
      else LongerMatch(filter, next, ins, buf, curPos, maxLen, niceLen, n, depth - 1, best')
  }

  /** The first-match loop: no match of four bytes is known yet, so look
      for the first candidate whose first four bytes agree, extend it, and
      go on with the longer-match loop. */
  function FirstMatch(filter: Filter, next: seq<nat>, ghost ins: set<nat>, buf: seq<byte>, curPos: nat,
                      maxLen: nat, niceLen: nat, node: nat, depth: nat, best: Best): (r: Best)
    requires WalkCtx(next, ins, buf, curPos, maxLen) && node in ins && depth >= 1
    requires best.len <= 3 && niceLen <= maxLen
    ensures r.len >= best.len && (r.len == best.len ==> r == best)
    ensures r.len > best.len ==> r.pos in ins && 4 <= r.len <= maxLen && Matches(buf, curPos, r.pos, r.len)
    decreases depth
  {
    var n := next[node];
    var more := n != 0 && depth - 1 != 0;
    if Load4(buf, node) == Load4(buf, curPos) then
      Load4Equal(buf, node, curPos);
      var len := Extend(buf, curPos, node, 4, maxLen);
      if len >= niceLen || !more then Best(len, node)
      else LongerMatch(filter, next, ins, buf, curPos, maxLen, niceLen, n, depth - 1, Best(len, node))
    else if !more then best
    else FirstMatch(filter, next, ins, buf, curPos, maxLen, niceLen, n, depth - 1, best)
  }

  /** The short check compares the three bytes at the candidate with the
      low three bytes of the word at the current position. */
  lemma ShortCheck(buf: seq<byte>, curPos: nat, m: nat)
    requires m < curPos && curPos + 4 <= |buf|
    ensures Load3(buf, m) == ToU24(Load4(buf, curPos)) <==> Matches(buf, curPos, m, 3)
  {
    Load4ToU24(buf, curPos);
    Load3Equal(buf, m, curPos);
  }

  /** Everything after the insertion: the short check, then the chain
      walk matching the length already known. `cur3` and `cur4` are the
      bucket contents read before the insertion. */
  function FindBest(filter: Filter, next: seq<nat>, ghost ins: set<nat>, buf: seq<byte>, curPos: nat,
                    cur3: nat, cur4: nat, bestLen: nat, maxLen: nat, niceLen: nat, maxDepth: nat): (r: Best)
    requires WalkCtx(next, ins, buf, curPos, maxLen) && Entry(cur3, ins) && Entry(cur4, ins)
    requires niceLen <= maxLen && maxDepth >= 1
    ensures r.len >= bestLen && (r.len == bestLen ==> r.pos == curPos)
    ensures r.len > bestLen ==> r.pos in ins && 3 <= r.len <= maxLen && Matches(buf, curPos, r.pos, r.len)
    ensures 4 <= bestLen && niceLen <= bestLen ==> r == Best(bestLen, curPos)
    ensures bestLen < 4 && cur3 == 0 ==> r == Best(bestLen, curPos)
  {
    if bestLen < 4 then
      if cur3 == 0 then Best(bestLen, curPos)
      else
        ShortCheck(buf, curPos, cur3);
        var b := if bestLen < 3 && Load3(buf, cur3) == ToU24(Load4(buf, curPos))
                 then Best(3, cur3) else Best(bestLen, curPos);
        if cur4 == 0 then b
        else FirstMatch(filter, next, ins, buf, curPos, maxLen, niceLen, cur4, maxDepth, b)
    else if cur4 == 0 || bestLen >= niceLen then Best(bestLen, curPos)
    else LongerMatch(filter, next, ins, buf, curPos, maxLen, niceLen, cur4, maxDepth, Best(bestLen, curPos))
  }

  /** `hc_matchfinder_longest_match`. With fewer than five bytes available
      nothing is read or written; otherwise the current position is inserted
      and the next hash codes computed before searching. The walk reads the
      links after the insertion, as the source does; it never reaches the
      link just written. */
  function LongestMatch(filter: Filter, mf: MatchFinder, hash: HashFn, buf: seq<byte>, curPos: nat,
                        bestLen: nat, maxLen: nat, niceLen: nat, maxDepth: nat, nextHashes: Hashes,
                        ghost ins: set<nat>): (r: SearchResult)
    requires ChainInv(mf, ins, curPos) && InRange(nextHashes)
    requires |buf| <= |mf.nextTab| && curPos + maxLen <= |buf|
    requires niceLen <= maxLen && maxDepth >= 1
    ensures maxLen < 5 ==> r == SearchResult(mf, nextHashes, bestLen, 0)
    ensures maxLen >= 5 ==> State(r.mf, r.nextHashes) == Step(State(mf, nextHashes), hash, buf, curPos)
    ensures r.length >= bestLen
    ensures r.offset == 0 <==> r.length == bestLen
    ensures r.length > bestLen ==>
              && 0 < r.offset < curPos
              && curPos - r.offset in ins
              && 3 <= r.length <= maxLen
              && Matches(buf, curPos, curPos - r.offset, r.length)
    ensures 4 <= bestLen && niceLen <= bestLen ==> r.length == bestLen
    ensures bestLen < 4 && mf.hash3Tab[nextHashes.h3] == 0 ==> r.length == bestLen
  {
    if maxLen < 5 then SearchResult(mf, nextHashes, bestLen, 0)
    else
      var cur3 := mf.hash3Tab[nextHashes.h3];
      var cur4 := mf.hash4Tab[nextHashes.h4];
      var st := Step(State(mf, nextHashes), hash, buf, curPos);
      assert Linked(st.mf.nextTab, ins);
      var best := FindBest(filter, st.mf.nextTab, ins, buf, curPos, cur3, cur4, bestLen, maxLen, niceLen, maxDepth);
      SearchResult(st.mf, st.nextHashes, best.len, curPos - best.pos)
  }

  // ---------------------------------------------------------------------
  // The walks are the reference scan over the first chain nodes

  /** The first `depth` nodes of the chain from `node`, following links
      directly: the nodes the walks visit when nothing stops them early. */
  ghost function Walk(next: seq<nat>, ins: set<nat>, node: nat, depth: nat): (c: seq<nat>)
    requires Linked(next, ins) && Entry(node, ins)
    ensures forall i :: 0 <= i < |c| ==> c[i] in ins
    decreases depth
  {
    if node == 0 || depth == 0 then [] else [node] + Walk(next, ins, next[node], depth - 1)
  }

  /** Following `depth` links is taking `depth` nodes of the whole chain. */
  lemma {:induction false} WalkIsTakeChain(next: seq<nat>, ins: set<nat>, node: nat, depth: nat)
    requires Linked(next, ins) && Entry(node, ins)
    ensures Walk(next, ins, node, depth) == Take(Chain(next, ins, node), depth)
    decreases depth
  {
    if node != 0 && depth != 0 {
      var tail := Chain(next, ins, next[node]);
      assert Chain(next, ins, node) == [node] + tail;
      WalkIsTakeChain(next, ins, next[node], depth - 1);
      var t := Take([node] + tail, depth);
      assert t == [node] + Take(tail, depth - 1);
    }
  }

  /** One step of the reference scan past a known match of four or more
      bytes is one `Consider`. */
  lemma ScanConsider(filter: Filter, buf: seq<byte>, curPos: nat, maxLen: nat, niceLen: nat,
                     node: nat, rest: seq<nat>, best: Best)
    requires node < curPos && curPos + maxLen <= |buf| && 4 <= best.len < niceLen <= maxLen
    requires forall i :: 0 <= i < |rest| ==> rest[i] < curPos
    ensures var b := Consider(filter, buf, curPos, maxLen, node, best);
            Scan(buf, curPos, maxLen, niceLen, [node] + rest, best)
            == if b.len >= niceLen then b else Scan(buf, curPos, maxLen, niceLen, rest, b)
  {
    assert ([node] + rest)[1..] == rest;
  }

  /** The longer-match loop from `node` with `depth` nodes left returns
      what the reference scan returns on the first `depth` nodes of the
      chain from `node`, whichever filter is built in. */
  lemma {:induction false} LongerMatchIsScan(filter: Filter, next: seq<nat>, ins: set<nat>, buf: seq<byte>,
                                             curPos: nat, maxLen: nat, niceLen: nat, node: nat, depth: nat,
                                             best: Best)
    requires WalkCtx(next, ins, buf, curPos, maxLen) && node in ins && depth >= 1
    requires 4 <= best.len < niceLen <= maxLen
    ensures LongerMatch(filter, next, ins, buf, curPos, maxLen, niceLen, node, depth, best)
            == Scan(buf, curPos, maxLen, niceLen, Walk(next, ins, node, depth), best)
    decreases depth
  {
    var n := next[node];
    var rest := Walk(next, ins, n, depth - 1);
    assert Walk(next, ins, node, depth) == [node] + rest;
    assert ([node] + rest)[1..] == rest;
    var best' := Consider(filter, buf, curPos, maxLen, node, best);
    ScanConsider(filter, buf, curPos, maxLen, niceLen, node, rest, best);
    if best'.len < niceLen && n != 0 && depth - 1 != 0 {
      LongerMatchIsScan(filter, next, ins, buf, curPos, maxLen, niceLen, n, depth - 1, best');
    }
  }

  /** One step of the reference scan while nothing of four bytes is known:
      a candidate is taken exactly when its first four bytes agree. */
  lemma ScanFirstStep(buf: seq<byte>, curPos: nat, maxLen: nat, niceLen: nat,
                      node: nat, rest: seq<nat>, best: Best)
    requires node < curPos && curPos + maxLen <= |buf| && best.len <= 3 && niceLen <= maxLen
    requires forall i :: 0 <= i < |rest| ==> rest[i] < curPos
    ensures var len := CommonLen(buf, curPos, node, maxLen);
            Scan(buf, curPos, maxLen, niceLen, [node] + rest, best)
            == if len < 4 then Scan(buf, curPos, maxLen, niceLen, rest, best)
               else if len >= niceLen then Best(len, node)
               else Scan(buf, curPos, maxLen, niceLen, rest, Best(len, node))
  {
    assert ([node] + rest)[1..] == rest;
  }

  /** One node of the first-match loop, in terms of the common run: the
      4-byte comparison and the extension from four bytes together measure
      the whole run. */
  lemma FirstMatchStep(filter: Filter, next: seq<nat>, ins: set<nat>, buf: seq<byte>, curPos: nat,
                       maxLen: nat, niceLen: nat, node: nat, depth: nat, best: Best)
    requires WalkCtx(next, ins, buf, curPos, maxLen) && node in ins && depth >= 1
    requires best.len <= 3 && niceLen <= maxLen
    ensures var len := CommonLen(buf, curPos, node, maxLen);
            var n := next[node];
            var more := n != 0 && depth - 1 != 0;
            FirstMatch(filter, next, ins, buf, curPos, maxLen, niceLen, node, depth, best)
            == if len < 4 then
                 (if more then FirstMatch(filter, next, ins, buf, curPos, maxLen, niceLen, n, depth - 1, best) else best)
               else if len >= niceLen || !more then Best(len, node)
               else LongerMatch(filter, next, ins, buf, curPos, maxLen, niceLen, n, depth - 1, Best(len, node))
  {
    Load4Equal(buf, node, curPos);
    CommonLenAtLeast(buf, curPos, node, maxLen, 4);
    if Load4(buf, node) == Load4(buf, curPos) {
      ExtendFromAnyStart(buf, curPos, node, 4, maxLen);
    }
  }

  /** The first-match loop likewise returns the reference scan of the
      first `depth` chain nodes. */
  lemma {:induction false} FirstMatchIsScan(filter: Filter, next: seq<nat>, ins: set<nat>, buf: seq<byte>,
                                            curPos: nat, maxLen: nat, niceLen: nat, node: nat, depth: nat,
                                            best: Best)
    requires WalkCtx(next, ins, buf, curPos, maxLen) && node in ins && depth >= 1
    requires best.len <= 3 && niceLen <= maxLen
    ensures FirstMatch(filter, next, ins, buf, curPos, maxLen, niceLen, node, depth, best)
            == Scan(buf, curPos, maxLen, niceLen, Walk(next, ins, node, depth), best)
    decreases depth
  {
    var n := next[node];
    var rest := Walk(next, ins, n, depth - 1);
    assert Walk(next, ins, node, depth) == [node] + rest;
    assert ([node] + rest)[1..] == rest;
    var len := CommonLen(buf, curPos, node, maxLen);
    ScanFirstStep(buf, curPos, maxLen, niceLen, node, rest, best);
    FirstMatchStep(filter, next, ins, buf, curPos, maxLen, niceLen, node, depth, best);
    if 4 <= len < niceLen && n != 0 && depth - 1 != 0 {
      LongerMatchIsScan(filter, next, ins, buf, curPos, maxLen, niceLen, n, depth - 1, Best(len, node));
    } else if len < 4 && n != 0 && depth - 1 != 0 {
      FirstMatchIsScan(filter, next, ins, buf, curPos, maxLen, niceLen, n, depth - 1, best);
    }
  }

  /** The chain nodes a search may inspect: the first `maxDepth` nodes of
      the chain of its 4-byte bucket as it stood before the search. */
  ghost function Inspectable(mf: MatchFinder, ins: set<nat>, curPos: nat, h: Hashes, maxDepth: nat): (c: seq<nat>)
    requires ChainInv(mf, ins, curPos) && InRange(h)
    ensures |c| <= maxDepth && Decreasing(c)
    ensures forall i :: 0 <= i < |c| ==> 0 < c[i] < curPos
  {
    Take(Chain(mf.nextTab, ins, mf.hash4Tab[h.h4]), maxDepth)
  }

  /** The best match the search starts its chain walk from: the close
      3-byte candidate when it matches and nothing of three bytes is known
      yet, else nothing new. */
  function ShortStart(buf: seq<byte>, curPos: nat, cur3: nat, bestLen: nat): Best
  {
    if bestLen < 3 && Matches(buf, curPos, cur3, 3) then Best(3, cur3) else Best(bestLen, curPos)
  }

  /** After the insertion, the search proper is the reference scan of the
      nodes the walk can reach, seeded with the short check. */
  lemma FindBestIsScan(filter: Filter, next: seq<nat>, ins: set<nat>, buf: seq<byte>, curPos: nat,
                       cur3: nat, cur4: nat, bestLen: nat, maxLen: nat, niceLen: nat, maxDepth: nat)
    requires WalkCtx(next, ins, buf, curPos, maxLen) && Entry(cur3, ins) && Entry(cur4, ins)
    requires niceLen <= maxLen && maxDepth >= 1
    requires bestLen >= 4 || cur3 != 0
    requires bestLen < 4 || bestLen < niceLen
    ensures FindBest(filter, next, ins, buf, curPos, cur3, cur4, bestLen, maxLen, niceLen, maxDepth)
            == Scan(buf, curPos, maxLen, niceLen, Walk(next, ins, cur4, maxDepth), ShortStart(buf, curPos, cur3, bestLen))
  {
    var b := ShortStart(buf, curPos, cur3, bestLen);
    if bestLen < 4 {
      ShortCheck(buf, curPos, cur3);
      if cur4 != 0 {
        FirstMatchIsScan(filter, next, ins, buf, curPos, maxLen, niceLen, cur4, maxDepth, b);
      }
    } else if cur4 != 0 {
      LongerMatchIsScan(filter, next, ins, buf, curPos, maxLen, niceLen, cur4, maxDepth, b);
    }
  }

  /** The search gets past its early exits to the chain walk: five bytes
      are available, and either a match of four or more bytes is known but
      still short of `niceLen`, or the 3-byte bucket holds a candidate. */
  predicate Walks(mf: MatchFinder, nextHashes: Hashes, bestLen: nat, maxLen: nat, niceLen: nat)
    requires Valid(mf) && InRange(nextHashes)
  {
    && 5 <= maxLen
    && (bestLen >= 4 || mf.hash3Tab[nextHashes.h3] != 0)
    && (bestLen < 4 || bestLen < niceLen)
  }

  /** Whenever the search walks the chain at all, its result is the
      reference scan of the inspectable nodes, seeded with the short check;
      and it improves on `bestLen` only past its early exits. */
  lemma LongestMatchScansChain(filter: Filter, mf: MatchFinder, hash: HashFn, buf: seq<byte>, curPos: nat,
                               bestLen: nat, maxLen: nat, niceLen: nat, maxDepth: nat, nextHashes: Hashes,
                               ins: set<nat>)
    requires ChainInv(mf, ins, curPos) && InRange(nextHashes)
    requires |buf| <= |mf.nextTab| && curPos + maxLen <= |buf|
    requires niceLen <= maxLen && maxDepth >= 1
    ensures var r := LongestMatch(filter, mf, hash, buf, curPos, bestLen, maxLen, niceLen, maxDepth, nextHashes, ins);
            Walks(mf, nextHashes, bestLen, maxLen, niceLen) ==>
              Best(r.length, curPos - r.offset)
              == Scan(buf, curPos, maxLen, niceLen, Inspectable(mf, ins, curPos, nextHashes, maxDepth),
                      ShortStart(buf, curPos, mf.hash3Tab[nextHashes.h3], bestLen))
    ensures LongestMatch(filter, mf, hash, buf, curPos, bestLen, maxLen, niceLen, maxDepth, nextHashes, ins).length > bestLen
            ==> Walks(mf, nextHashes, bestLen, maxLen, niceLen)
  {
    if Walks(mf, nextHashes, bestLen, maxLen, niceLen) {
      var cur3 := mf.hash3Tab[nextHashes.h3];
      var cur4 := mf.hash4Tab[nextHashes.h4];
      var next := LongestMatchWalks(filter, mf, hash, buf, curPos, bestLen, maxLen, niceLen, maxDepth, nextHashes, ins);
      FindBestIsScan(filter, next, ins, buf, curPos, cur3, cur4, bestLen, maxLen, niceLen, maxDepth);
      WalkIsTakeChain(next, ins, cur4, maxDepth);
      ChainFrame(mf.nextTab, ins, next, ins, cur4);
    }
  }

  /** The search result is `FindBest` over the links after the insertion,
      which agree with the old links on every inserted position. */
  lemma LongestMatchWalks(filter: Filter, mf: MatchFinder, hash: HashFn, buf: seq<byte>, curPos: nat,
                          bestLen: nat, maxLen: nat, niceLen: nat, maxDepth: nat, nextHashes: Hashes,
                          ins: set<nat>) returns (next: seq<nat>)
    requires ChainInv(mf, ins, curPos) && InRange(nextHashes)
    requires |buf| <= |mf.nextTab| && curPos + maxLen <= |buf|
    requires niceLen <= maxLen && maxDepth >= 1 && 5 <= maxLen
    ensures Linked(next, ins) && |next| == |mf.nextTab|
    ensures forall q :: q in ins ==> next[q] == mf.nextTab[q]
    ensures var cur3 := mf.hash3Tab[nextHashes.h3];
            var cur4 := mf.hash4Tab[nextHashes.h4];
            var r := LongestMatch(filter, mf, hash, buf, curPos, bestLen, maxLen, niceLen, maxDepth, nextHashes, ins);
            var b := FindBest(filter, next, ins, buf, curPos, cur3, cur4, bestLen, maxLen, niceLen, maxDepth);
            Best(r.length, curPos - r.offset) == b
  {
    next := Insert(mf, curPos, nextHashes).nextTab;
    assert Linked(next, ins);
  }

  /** Both builds of the rejection filter give the same search result. */
  lemma LongestMatchFilterIndependent(mf: MatchFinder, hash: HashFn, buf: seq<byte>, curPos: nat,
                                      bestLen: nat, maxLen: nat, niceLen: nat, maxDepth: nat,
                                      nextHashes: Hashes, ins: set<nat>)
    requires ChainInv(mf, ins, curPos) && InRange(nextHashes)
    requires |buf| <= |mf.nextTab| && curPos + maxLen <= |buf|
    requires niceLen <= maxLen && maxDepth >= 1
    ensures LongestMatch(WordFilter, mf, hash, buf, curPos, bestLen, maxLen, niceLen, maxDepth, nextHashes, ins)
            == LongestMatch(ByteFilter, mf, hash, buf, curPos, bestLen, maxLen, niceLen, maxDepth, nextHashes, ins)
  {
    LongestMatchScansChain(WordFilter, mf, hash, buf, curPos, bestLen, maxLen, niceLen, maxDepth, nextHashes, ins);
    LongestMatchScansChain(ByteFilter, mf, hash, buf, curPos, bestLen, maxLen, niceLen, maxDepth, nextHashes, ins);
  }

  /** Among the inspected chain nodes, the reported match of four or more
      bytes is the newest of its length: every inspected node closer to the
      current position has a shorter common run, and none of them was an
      improvement that already reached `niceLen`. */
  lemma LongestMatchNewestFirst(filter: Filter, mf: MatchFinder, hash: HashFn, buf: seq<byte>, curPos: nat,
                                bestLen: nat, maxLen: nat, niceLen: nat, maxDepth: nat, nextHashes: Hashes,
                                ins: set<nat>)
    requires ChainInv(mf, ins, curPos) && InRange(nextHashes)
    requires |buf| <= |mf.nextTab| && curPos + maxLen <= |buf|
    requires niceLen <= maxLen && maxDepth >= 1
    ensures var r := LongestMatch(filter, mf, hash, buf, curPos, bestLen, maxLen, niceLen, maxDepth, nextHashes, ins);
            r.length > bestLen && r.length >= 4 ==>
              NewestOfLength(buf, curPos, maxLen, niceLen, bestLen, Inspectable(mf, ins, curPos, nextHashes, maxDepth),
                             r.length, curPos - r.offset)
  {
    LongestMatchScansChain(filter, mf, hash, buf, curPos, bestLen, maxLen, niceLen, maxDepth, nextHashes, ins);
    var r := LongestMatch(filter, mf, hash, buf, curPos, bestLen, maxLen, niceLen, maxDepth, nextHashes, ins);
    ReportNewestFirst(buf, curPos, maxLen, niceLen, bestLen, Inspectable(mf, ins, curPos, nextHashes, maxDepth),
                      mf.hash3Tab[nextHashes.h3], r.length, curPos - r.offset);
  }

  /** Unless it stopped at `niceLen`, a search that walked the chain found
      the longest match of four or more bytes among the inspected nodes. */
  lemma LongestMatchLongest(filter: Filter, mf: MatchFinder, hash: HashFn, buf: seq<byte>, curPos: nat,
                            bestLen: nat, maxLen: nat, niceLen: nat, maxDepth: nat, nextHashes: Hashes,
                            ins: set<nat>)
    requires ChainInv(mf, ins, curPos) && InRange(nextHashes)
    requires |buf| <= |mf.nextTab| && curPos + maxLen <= |buf|
    requires niceLen <= maxLen && maxDepth >= 1
    ensures var r := LongestMatch(filter, mf, hash, buf, curPos, bestLen, maxLen, niceLen, maxDepth, nextHashes, ins);
            var c := Inspectable(mf, ins, curPos, nextHashes, maxDepth);
            5 <= maxLen && (bestLen >= 4 || mf.hash3Tab[nextHashes.h3] != 0) && r.length < niceLen ==>
              forall x :: x in c && 4 <= CommonLen(buf, curPos, x, maxLen) ==> CommonLen(buf, curPos, x, maxLen) <= r.length
  {
    var r := LongestMatch(filter, mf, hash, buf, curPos, bestLen, maxLen, niceLen, maxDepth, nextHashes, ins);
    if 5 <= maxLen && (bestLen >= 4 || mf.hash3Tab[nextHashes.h3] != 0) && r.length < niceLen {
      var c := Inspectable(mf, ins, curPos, nextHashes, maxDepth);
      var b := ShortStart(buf, curPos, mf.hash3Tab[nextHashes.h3], bestLen);
      LongestMatchScansChain(filter, mf, hash, buf, curPos, bestLen, maxLen, niceLen, maxDepth, nextHashes, ins);
      ScanFindsLongest(buf, curPos, maxLen, niceLen, c, b);
      forall x | x in c && 4 <= CommonLen(buf, curPos, x, maxLen)
        ensures CommonLen(buf, curPos, x, maxLen) <= r.length
      {
        var j :| 0 <= j < |c| && c[j] == x;
      }
    }
  }

  /** A search keeps the chain invariant, now one position further on. */
  lemma LongestMatchKeepsInv(filter: Filter, mf: MatchFinder, hash: HashFn, buf: seq<byte>, curPos: nat,
                             bestLen: nat, maxLen: nat, niceLen: nat, maxDepth: nat, nextHashes: Hashes,
                             ins: set<nat>)
    requires ChainInv(mf, ins, curPos) && InRange(nextHashes)
    requires |buf| <= |mf.nextTab| && curPos + maxLen <= |buf|
    requires niceLen <= maxLen && maxDepth >= 1
    ensures var r := LongestMatch(filter, mf, hash, buf, curPos, bestLen, maxLen, niceLen, maxDepth, nextHashes, ins);
            && ChainInv(r.mf, if maxLen >= 5 then Added(ins, curPos) else ins, curPos + 1)
            && InRange(r.nextHashes)
  {
    if maxLen >= 5 {
      InsertKeepsInv(mf, ins, curPos, curPos, nextHashes);
    }
  }
}
