/** The test-case reducer: passes of candidate deletions, swaps and byte changes,
    repeated until a whole round changes nothing or the time limit strikes. */
module Reducer {
  import opened Words
  import opened Programs
  import opened RangeRewrite
  import opened Structure
  import opened Candidates
  import opened Parts

  datatype Verdict = Accepted | Rejected | TimedOut

  /** How a reduction ends: without starting (the test does not satisfy the
      criterion, the internal assertion fails, the time limit strikes before the
      loop), or with the reduced test, before and after zero padding. */
  datatype Outcome =
    | NotSatisfying
    | AssertionFailed
    | TooSlow
    | Reduced(core: seq<byte>, padded: seq<byte>, timedOut: bool)

  /** The tests on which each pass last found nothing. */
  datatype Memo = Memo(
    oneOfRemoval: Option<seq<byte>>,
    edgeRemoval: Option<seq<byte>>,
    chunkRemoval: map<nat, seq<byte>>,
    reduceAndDelete: map<nat, seq<byte>>,
    allRange: Option<seq<byte>>,
    oneOfSwap: Option<seq<byte>>,
    byteReduce: Option<seq<byte>>,
    patternSearch: Option<seq<byte>>)

  /** When a reduction is refused, and how: `refused` is None if it gets to the loop. */
  ghost predicate RefusedRightly(setup: Setup, test: seq<byte>, refused: Option<Outcome>) {
    && (refused == Some(NotSatisfying) <==> setup.Admits(1) && !setup.search && !setup.Sat(test))
    && (refused == Some(AssertionFailed) <==> setup.Admits(2) && setup.search && !setup.Sat(test))
    && (refused == Some(TooSlow) <==> !setup.Admits(1) || (!setup.Admits(2) && (setup.search || setup.Sat(test))))
    && (refused == None <==> setup.Admits(2) && setup.Sat(test))
  }

  ghost predicate ZerosAfter(core: seq<byte>, padded: seq<byte>) {
    core <= padded && forall k :: |core| <= k < |padded| ==> padded[k] == 0
  }

  function AtLeast(n: nat, m: int): nat {
    if n < m then m else n
  }

  /** What a reduction of `test` delivers. */
  ghost predicate Delivered(setup: Setup, test: seq<byte>, core: seq<byte>, padded: seq<byte>, timedOut: bool) {
    && ZerosAfter(core, padded) && (setup.noPad ==> padded == core) && (setup.Sat(padded) <==> setup.Sat(core))
    && (setup.deadline.None? ==> !timedOut)
    && (!BoolsDropped(setup, test, core) ==>
          setup.Sat(core) && (!setup.noPad ==> |padded| == AtLeast(|core|, setup.LastReadOf(core) + 1)))
    && (setup.NeverGrows(test) ==> |core| <= |test|)
    && (setup.Regular(test) ==> LowersOrSame(core, test))
    && (setup.NeverGrows(test) && !StillTruncated(setup, test, core) && !timedOut ==>
          Irreducible(setup, core, if setup.slowest then |test| else setup.maxByteRange))
  }

  const EMPTY_MEMO := Memo(None, None, map[], map[], None, None, None, None)

  /** Each entry still holds; for `stale` the structure may have been another one. */
  ghost predicate MemoHolds(setup: Setup, memo: Memo, width: int, stale: Option<seq<byte>>) {
    && (memo.oneOfRemoval.Some? && memo.oneOfRemoval != stale ==>
          setup.NoCut(memo.oneOfRemoval.value, setup.Cuts(memo.oneOfRemoval.value)))
    && (memo.edgeRemoval.Some? && memo.edgeRemoval != stale ==>
          setup.NoEdge(memo.edgeRemoval.value, setup.Cuts(memo.edgeRemoval.value)))
    && (forall k :: k in memo.chunkRemoval ==> setup.NoChunk(memo.chunkRemoval[k], k))
    && (forall k :: k in memo.reduceAndDelete ==> setup.NoReduce(memo.reduceAndDelete[k], k))
    && (memo.allRange.Some? ==> setup.NoRange(memo.allRange.value, width))
    && (memo.oneOfSwap.Some? && memo.oneOfSwap != stale ==>
          setup.NoSwap(memo.oneOfSwap.value, setup.Cuts(memo.oneOfSwap.value)))
    && (memo.byteReduce.Some? ==> setup.NoLower(memo.byteReduce.value))
    && (memo.patternSearch.Some? ==> setup.NoPattern(memo.patternSearch.value))
  }

  /** What is known of the current test: whose structure is in hand, that it satisfies
      the criterion if `sat`, and that the structure is its own if `exact`. */
  ghost predicate Known(setup: Setup, ran: seq<byte>, test: seq<byte>, cuts: seq<Cut>, lastRead: int,
                        sat: bool, exact: bool)
  {
    && (forall c {:trigger setup.InHand(ran, test, c)} :: c in cuts ==> setup.InHand(ran, test, c))
    && (sat ==> setup.Sat(test) && lastRead == setup.LastReadOf(test))
    && (exact ==> cuts == setup.Cuts(test))
  }

  /** A test that has just been run is known, with its own structure. */
  lemma FreshIsKnown(setup: Setup, test: seq<byte>, cuts: seq<Cut>, lastRead: int)
    requires setup.Sat(test) && cuts == setup.Cuts(test) && lastRead == setup.LastReadOf(test)
    ensures Known(setup, test, test, cuts, lastRead, true, true)
  {
  }

  /** What the flags of a reducer promise. */
  ghost predicate Promised(setup: Setup, bound: seq<byte>, tame: bool, regular: bool) {
    (tame ==> setup.NeverGrows(bound)) && (regular ==> tame && setup.Regular(bound))
  }

  lemma PromiseHolds(setup: Setup, bound: seq<byte>)
    ensures Promised(setup, bound, setup.NeverGrows(bound), setup.Regular(bound))
  {
  }

  lemma LowersTransitive(a: seq<byte>, b: seq<byte>, c: seq<byte>)
    requires LowersOrSame(a, b) && LowersOrSame(b, c)
    ensures LowersOrSame(a, c)
    ensures a == c ==> b == c
    ensures Lowers(b, c) ==> Lowers(a, c)
  {
  }

  /** What three steps do together.  If none makes the test heavier, the outer two make
      a changed one lighter and the last test equals the first, nothing changed. */
  lemma Settled(d: seq<byte>, c: seq<byte>, b: seq<byte>, a: seq<byte>)
    ensures LowersOrSame(d, c) && LowersOrSame(c, b) && LowersOrSame(b, a) ==> LowersOrSame(d, a)
    ensures SameOrLighter(d, c) && NotHeavier(c, b) && SameOrLighter(b, a) ==>
      NotHeavier(d, a) && (d == a ==> b == a && c == a)
    ensures SameOrLighter(d, c) && SameOrLighter(c, b) && SameOrLighter(b, a) ==> SameOrLighter(d, a)
  {
  }

  class Reducer {
    const setup: Setup
    ghost const program: Program

    var currentTest: seq<byte>
    var cuts: seq<Cut>
    var lastRead: int
    var candidateRuns: nat
    var maxByteRange: int

    var memo: Memo

    /** The satisfying test whose run the structure in hand comes from. */
    ghost var ran: seq<byte>
    /** What the weight of the test is compared with. */
    ghost var bound: seq<byte>
    /** No test up to the bound grows. */
    ghost var tame: bool
    /** And accepted swaps lower. */
    ghost var regular: bool
    /** The first truncation dropped no odd boolean. */
    ghost var kept: bool
    /** The first test, if its truncation lost something. */
    ghost var stale: Option<seq<byte>>

    ghost predicate Valid()
      reads this
    {
      && setup.Runs(program)
      && Grounded()
      && Promised(setup, bound, tame, regular) && (tame ==> NotHeavier(currentTest, bound))
      && (setup.deadline.None? ==> regular)
    }

    /** What is known of the current test. */
    ghost predicate Grounded()
      reads this
    {
      var exact := stale != Some(currentTest);
      Known(setup, ran, currentTest, cuts, lastRead, kept || exact, exact)
    }

    /** Each pass would still find nothing where it last did. */
    ghost predicate Remembers()
      reads `memo, `maxByteRange, `stale
    {
      MemoHolds(setup, memo, maxByteRange, stale)
    }

    constructor (setup: Setup, ghost program: Program)
      ensures this.setup == setup && this.program == program && candidateRuns == 0
      ensures maxByteRange == setup.maxByteRange && memo == EMPTY_MEMO
    {
      this.setup, this.program := setup, program;
      currentTest, cuts, lastRead, candidateRuns, maxByteRange := [], [], -1, 0, setup.maxByteRange;
      memo := EMPTY_MEMO;
      ran, bound, tame, regular, kept, stale := [], [], false, false, false, None;
    }

    // ----- one candidate

    /** The candidate runs left before the time limit. */
    ghost function Fuel(): nat
      reads this
    {
      if setup.deadline.None? || setup.deadline.value < candidateRuns then 0
      else setup.deadline.value + 1 - candidateRuns
    }

    predicate Expired()
      reads this
    {
      setup.deadline.Some? && candidateRuns > setup.deadline.value
    }

    /** What trying a row of candidates does. */
    twostate predicate Swept(v: Verdict)
      reads this
    {
      && candidateRuns >= old(candidateRuns)
      && (v.TimedOut? <==> Expired())
      && (v.Accepted? ==>
            && candidateRuns > old(candidateRuns) && setup.Sat(currentTest)
            && (regular ==> Lowers(currentTest, old(currentTest)))
            && (tame ==> NotHeavier(currentTest, old(currentTest))))
      && (!v.Accepted? ==>
            currentTest == old(currentTest) && cuts == old(cuts) && lastRead == old(lastRead))
    }

    /** What trying a row of lighter candidates does. */
    twostate predicate Shrunk(v: Verdict)
      reads this
    {
      Swept(v) && (v.Accepted? && tame ==> Lighter(currentTest, old(currentTest)))
    }

    /** Run one candidate, and take it if it satisfies the criterion. */
    method Attempt(newTest: seq<byte>) returns (v: Verdict)
      requires Valid() && !Expired()
      requires regular && setup.Sat(newTest) ==> Lowers(newTest, currentTest)
      requires tame && setup.Sat(newTest) ==> NotHeavier(newTest, currentTest)
      modifies `currentTest, `cuts, `lastRead, `ran, `candidateRuns
      ensures Valid() && Swept(v) && candidateRuns == old(candidateRuns) + 1
      ensures tame && (setup.Sat(newTest) ==> Lighter(newTest, old(currentTest))) ==> Shrunk(v)
      ensures v.Accepted? ==> setup.Sat(newTest) && currentTest == setup.Tidy(newTest)
      ensures v.Rejected? ==> !setup.Sat(newTest)
    {
      candidateRuns := candidateRuns + 1;
      if Expired() {
        return TimedOut;
      }
      var r := setup.binary(newTest);
      if !setup.Checks(r) {
        return Rejected;
      }
      UpdateCurrent(newTest, r);
      v := Accepted;
      if regular {
        LowersTransitive(currentTest, newTest, old(currentTest));
      }
    }

    /** Take a checked test, rewritten and not run again. */
    method UpdateCurrent(newTest: seq<byte>, r: Run)
      requires setup.Runs(program) && r == setup.binary(newTest) && setup.Sat(newTest)
      modifies `currentTest, `cuts, `lastRead, `ran
      ensures currentTest == setup.Tidy(newTest) == ran
      ensures LowersOrSame(currentTest, newTest) && SameOrLighter(currentTest, newTest)
      ensures Known(setup, ran, currentTest, cuts, lastRead, true, true)
    {
      var tidy := Rewrite(newTest, r);
      var found, last := FindStructure(r, newTest, tidy);
      TidyIsSafe(setup, program, newTest);
      FreshIsKnown(setup, tidy, found, last);
      currentTest, cuts, lastRead, ran := tidy, found, last, tidy;
    }

    method Rewrite(test: seq<byte>, r: Run) returns (tidy: seq<byte>)
      requires setup.Runs(program) && r == setup.binary(test)
      ensures tidy == setup.Tidy(test)
    {
      assert r == Execute(program, test);
      ParseRun(program, test);
      SitesFrom(program, Serve(test), 0, 0);
      var conversions := RangeConversions(r.log);
      if setup.noStructure {
        return test;
      }
      var bytes := new byte[|test|](i requires 0 <= i < |test| => test[i]);
      assert bytes[..] == test;
      FixRangeConversions(bytes, conversions);
      tidy := bytes[..];
    }

    method FindStructure(r: Run, ghost ran: seq<byte>, test: seq<byte>) returns (found: seq<Cut>, last: int)
      requires setup.Runs(program) && r == setup.binary(ran) && |ran| == |test|
      ensures found == setup.CutsOfRun(r, |test| - 1, test)
      ensures |ran| == |test| ==> last == setup.LastReadOf(ran)
    {
      var oneOfs: seq<Cut>;
      oneOfs, last := FindOneOfs(r, ran, |test|);
      found := AugmentWithDelims(oneOfs, test, setup.noStaticStructure);
    }

    method FindOneOfs(r: Run, ghost test: seq<byte>, size: nat) returns (found: seq<Cut>, last: int)
      requires setup.Runs(program) && r == setup.binary(test) && size == |test|
      ensures found == if setup.noStructure then [] else CutsOfLog(r.log, size - 1)
      ensures last == if setup.noStructure then size - 1 else ScanLog(r.log, size - 1).lastRead
    {
      assert r == Execute(program, test);
      RunIsBracketed(program, test);
      found, last := OneOfCalls(r.log, size, setup.noStructure);
    }

    // ----- rows of candidates

    /** A deletion that is tried changes the length. */
    lemma AcceptedCutShortens(c: Cut)
      requires Valid() && tame && !setup.noStructure && c in cuts
      ensures setup.Sat(CutOut(currentTest, c)) ==> |CutOut(currentTest, c)| <= |currentTest|
      ensures setup.Sat(EdgesOut(currentTest, c)) ==> |EdgesOut(currentTest, c)| <= |currentTest|
    {
      assert setup.InHand(ran, currentTest, c) && !setup.Grows(ran, currentTest, c);
    }

    /** currentTest[:c[0]] + currentTest[c[1] + 1:] for every cut. */
    method TryCuts() returns (v: Verdict)
      requires Valid() && !Expired() && !setup.noStructure
      modifies `currentTest, `cuts, `lastRead, `ran, `candidateRuns
      ensures Valid() && Shrunk(v)
      ensures v.Rejected? ==> setup.NoCut(currentTest, cuts)
    {
      var test, list := currentTest, cuts;
      for i := 0 to |list|
        invariant Valid() && !Expired() && Swept(Rejected)
        invariant forall j :: 0 <= j < i ==> setup.CutFails(test, list[j])
      {
        v := TryCut(list[i]);
        if v != Rejected {
          return;
        }
      }
      return Rejected;
    }

    method TryCut(c: Cut) returns (v: Verdict)
      requires Valid() && !Expired() && !setup.noStructure && c in cuts
      modifies `currentTest, `cuts, `lastRead, `ran, `candidateRuns
      ensures Valid() && Shrunk(v)
      ensures v.Rejected? ==> setup.CutFails(currentTest, c)
    {
      var newTest := CutOut(currentTest, c);
      if |newTest| == |currentTest| {
        return Rejected;
      }
      if tame {
        AcceptedCutShortens(c);
      }
      v := Attempt(newTest);
    }

    /** The two edge bytes of every cut. */
    method TryEdges() returns (v: Verdict)
      requires Valid() && !Expired() && !setup.noStructure
      modifies `currentTest, `cuts, `lastRead, `ran, `candidateRuns
      ensures Valid() && Shrunk(v)
      ensures v.Rejected? ==> setup.NoEdge(currentTest, cuts)
    {
      var test, list := currentTest, cuts;
      for i := 0 to |list|
        invariant Valid() && !Expired() && Swept(Rejected)
        invariant forall j :: 0 <= j < i ==> setup.EdgeFails(test, list[j])
      {
        v := TryEdge(list[i]);
        if v != Rejected {
          return;
        }
      }
      return Rejected;
    }

    method TryEdge(c: Cut) returns (v: Verdict)
      requires Valid() && !Expired() && !setup.noStructure && c in cuts
      modifies `currentTest, `cuts, `lastRead, `ran, `candidateRuns
      ensures Valid() && Shrunk(v)
      ensures v.Rejected? ==> setup.EdgeFails(currentTest, c)
    {
      var newTest := EdgesOut(currentTest, c);
      if |newTest| == |currentTest| {
        return Rejected;
      }
      if tame {
        AcceptedCutShortens(c);
      }
      v := Attempt(newTest);
    }

    /** Chunks of `k` bytes at the positions from `lo` up to `hi`. */
    method TryChunks(k: nat, lo: nat, hi: nat) returns (v: Verdict, at: nat)
      requires Valid() && !Expired() && k > 0 && lo <= hi <= |currentTest|
      modifies `currentTest, `cuts, `lastRead, `ran, `candidateRuns
      ensures Valid() && Shrunk(v)
      ensures v.Accepted? ==> at <= |currentTest|
      ensures v.Rejected? ==> setup.NoChunkFrom(currentTest, k, lo, hi) && ChunksMatter(setup, currentTest, k, lo, hi)
    {
      for b := lo to hi
        invariant Valid() && !Expired() && Swept(Rejected)
        invariant setup.NoChunkFrom(currentTest, k, lo, b)
      {
        v := Attempt(ChunkOut(currentTest, b, k));
        if v != Rejected {
          return v, b;
        }
      }
      ChunksInParts(setup, currentTest, k, lo, hi);
      return Rejected, hi;
    }

    /** All positions, from `start` on and then from the beginning. */
    method SweepChunks(k: nat, start: nat) returns (v: Verdict, at: nat)
      requires Valid() && !Expired() && k > 0 && start <= |currentTest|
      modifies `currentTest, `cuts, `lastRead, `ran, `candidateRuns
      ensures Valid() && Shrunk(v)
      ensures v.Accepted? ==> at <= |currentTest|
      ensures v.Rejected? ==> setup.NoChunk(currentTest, k)
    {
      v, at := TryChunks(k, start, |currentTest|);
      if v.Rejected? {
        v, at := TryChunks(k, 0, start);
      }
    }

    /** Every non-zero byte lowered by one, the next `k` bytes dropped. */
    method TryReduceAndDelete(k: nat) returns (v: Verdict)
      requires Valid() && !Expired() && k > 0
      modifies `currentTest, `cuts, `lastRead, `ran, `candidateRuns
      ensures Valid() && Shrunk(v)
      ensures v.Rejected? ==> setup.NoReduce(currentTest, k)
    {
      var b := 0;
      while b < |currentTest| - k
        invariant Valid() && !Expired() && Swept(Rejected)
        invariant forall j: nat :: j < b && j + k < |currentTest| && currentTest[j] > 0
                    ==> !setup.Sat(ReduceAndDelete(currentTest, j, k))
        decreases |currentTest| - b
      {
        if currentTest[b] != 0 {
          v := Attempt(ReduceAndDelete(currentTest, b, k));
          if v != Rejected {
            return;
          }
        }
        b := b + 1;
      }
      return Rejected;
    }

    /** Ranges that start between `lo` and `hi`, but for the widths 4 and 8. */
    method TryRanges(lo: nat, hi: nat) returns (v: Verdict, at: nat)
      requires Valid() && !Expired() && lo <= hi <= |currentTest|
      modifies `currentTest, `cuts, `lastRead, `ran, `candidateRuns
      ensures Valid() && Shrunk(v)
      ensures v.Accepted? ==> at <= |currentTest|
      ensures v.Rejected? ==> RangesFail(lo, hi)
    {
      for b := lo to hi
        invariant Valid() && !Expired() && Swept(Rejected)
        invariant RangesFail(lo, b)
      {
        v := TryWidths(b);
        if v != Rejected {
          return v, b;
        }
      }
      return Rejected, hi;
    }

    ghost predicate RangesFail(lo: nat, hi: nat)
      reads this
    {
      forall b: nat :: lo <= b < hi ==> setup.NoRangeFrom(currentTest, b, maxByteRange, |currentTest|)
    }

    method TryWidths(b: nat) returns (verdict: Verdict)
      requires Valid() && !Expired() && b < |currentTest|
      modifies `currentTest, `cuts, `lastRead, `ran, `candidateRuns
      ensures Valid() && Shrunk(verdict)
      ensures verdict.Accepted? ==> b <= |currentTest|
      ensures verdict.Rejected? ==> setup.NoRangeFrom(currentTest, b, maxByteRange, |currentTest|)
    {
      var v := b + 2;
      while v < |currentTest| && v < b + maxByteRange
        invariant Valid() && !Expired() && Swept(Rejected) && v >= b + 2
        invariant setup.NoRangeFrom(currentTest, b, maxByteRange, v)
        decreases |currentTest| - v
      {
        if v - b != 4 && v - b != 8 {
          verdict := Attempt(RangeOut(currentTest, b, v));
          if verdict != Rejected {
            return;
          }
        }
        v := v + 1;
      }
      return Rejected;
    }

    /** All starts, from `start` on and then from the beginning. */
    method SweepRanges(start: nat) returns (v: Verdict, at: nat)
      requires Valid() && !Expired() && start <= |currentTest|
      modifies `currentTest, `cuts, `lastRead, `ran, `candidateRuns
      ensures Valid() && Shrunk(v)
      ensures v.Accepted? ==> at <= |currentTest|
      ensures v.Rejected? ==> setup.NoRange(currentTest, maxByteRange)
    {
      v, at := TryRanges(start, |currentTest|);
      if v.Rejected? {
        v, at := TryRanges(0, start);
      }
    }

    /** Two stretches, the greater one first, exchanged. */
    method TrySwaps() returns (v: Verdict)
      requires Valid() && !Expired() && !setup.noStructure
      modifies `currentTest, `cuts, `lastRead, `ran, `candidateRuns
      ensures Valid() && Swept(v)
      ensures v.Rejected? ==> setup.NoSwap(currentTest, cuts)
    {
      var i := 0;
      while i < |cuts| - 1
        invariant Valid() && !Expired() && Swept(Rejected) && 0 <= i
        invariant forall a :: 0 <= a < i && a < |cuts| ==> setup.NoSwapWith(currentTest, cuts, a, |cuts|)
        decreases |cuts| - i
      {
        v := TrySwapsWith(i);
        if v != Rejected {
          return;
        }
        i := i + 1;
      }
      return Rejected;
    }

    method TrySwapsWith(i: nat) returns (v: Verdict)
      requires Valid() && !Expired() && !setup.noStructure && i < |cuts|
      modifies `currentTest, `cuts, `lastRead, `ran, `candidateRuns
      ensures Valid() && Swept(v)
      ensures v.Rejected? ==> setup.NoSwapWith(currentTest, cuts, i, |cuts|)
    {
      var test, list := currentTest, cuts;
      for j := i + 1 to |list|
        invariant Valid() && !Expired() && Swept(Rejected)
        invariant forall k :: i < k < j ==> setup.SwapFails(test, list[i], list[k])
      {
        v := TrySwap(list[i], list[j]);
        if v != Rejected {
          return;
        }
      }
      return Rejected;
    }

    method TrySwap(ci: Cut, cj: Cut) returns (v: Verdict)
      requires Valid() && !Expired() && !setup.noStructure && ci in cuts && cj in cuts
      modifies `currentTest, `cuts, `lastRead, `ran, `candidateRuns
      ensures Valid() && Swept(v)
      ensures v.Rejected? ==> setup.SwapFails(currentTest, ci, cj)
    {
      if !CanSwap(currentTest, ci, cj) {
        return Rejected;
      }
      var newTest := Swap(currentTest, ci, cj);
      SwapIsEven(ci, cj);
      v := Attempt(newTest);
    }

    lemma SwapIsEven(ci: Cut, cj: Cut)
      requires Valid() && !setup.noStructure && ci in cuts && cj in cuts && CanSwap(currentTest, ci, cj)
      ensures NotHeavier(Swap(currentTest, ci, cj), currentTest)
      ensures regular && setup.Sat(Swap(currentTest, ci, cj)) ==> Lowers(Swap(currentTest, ci, cj), currentTest)
    {
      assert setup.InHand(ran, currentTest, ci) && setup.InHand(ran, currentTest, cj);
      CutsAreBounded(setup, program, ran, currentTest, ci);
      CutsAreBounded(setup, program, ran, currentTest, cj);
      SwapIsInside(currentTest, ci, cj);
      SwapKeepsWeight(currentTest, ci, cj);
      assert setup.Sat(Swap(currentTest, ci, cj)) ==> setup.Swaps(ran, currentTest, ci, cj);
    }

    ghost predicate BytesFail(lo: nat, hi: nat)
      reads this
      requires hi <= |currentTest|
    {
      forall b: nat :: lo <= b < hi ==> setup.NoLowerAt(currentTest, b, 256)
    }

    /** Every smaller value of every byte between `lo` and `hi`. */
    method TryBytes(lo: nat, hi: nat) returns (v: Verdict, at: nat)
      requires Valid() && !Expired() && lo <= hi <= |currentTest|
      modifies `currentTest, `cuts, `lastRead, `ran, `candidateRuns
      ensures Valid() && Shrunk(v)
      ensures v.Accepted? ==> at < |currentTest|
      ensures v.Rejected? ==> BytesFail(lo, hi)
    {
      for b := lo to hi
        invariant Valid() && !Expired() && Swept(Rejected)
        invariant BytesFail(lo, b)
      {
        v := TryValues(b);
        if v != Rejected {
          return v, b;
        }
      }
      return Rejected, hi;
    }

    method TryValues(b: nat) returns (v: Verdict)
      requires Valid() && !Expired() && b < |currentTest|
      modifies `currentTest, `cuts, `lastRead, `ran, `candidateRuns
      ensures Valid() && Shrunk(v)
      ensures v.Accepted? ==> b < |currentTest|
      ensures v.Rejected? ==> setup.NoLowerAt(currentTest, b, 256)
    {
      for x := 0 to currentTest[b]
        invariant Valid() && !Expired() && Swept(Rejected)
        invariant setup.NoLowerAt(currentTest, b, x)
      {
        ByteLowers(currentTest, b, x);
        v := Attempt(LowerByte(currentTest, b, x));
        if v != Rejected {
          return;
        }
      }
      return Rejected;
    }

    /** All bytes, from `start` on and then from the beginning. */
    method SweepBytes(start: nat) returns (v: Verdict, at: nat)
      requires Valid() && !Expired() && start <= |currentTest|
      modifies `currentTest, `cuts, `lastRead, `ran, `candidateRuns
      ensures Valid() && Shrunk(v)
      ensures v.Accepted? ==> at < |currentTest|
      ensures v.Rejected? ==> setup.NoLower(currentTest)
    {
      v, at := TryBytes(start, |currentTest|);
      if v.Rejected? {
        v, at := TryBytes(0, start);
      }
    }

    ghost predicate PatternsFail(lo: nat, b1: nat)
      reads this
    {
      forall a: nat, b2: nat, w :: lo <= a < b1 && IsPattern(currentTest, a, b2)
          && w in Replacements(currentTest[a], currentTest[a + 1])
        ==> !setup.Sat(ChangePattern(currentTest, a, b2, w))
    }

    /** Every pair of bytes that occurs twice, shortened or lowered in both places. */
    method TryPatterns() returns (v: Verdict)
      requires Valid() && !Expired()
      modifies `currentTest, `cuts, `lastRead, `ran, `candidateRuns
      ensures Valid() && Shrunk(v)
      ensures v.Rejected? ==> setup.NoPattern(currentTest)
    {
      var b1 := 0;
      while b1 < |currentTest| - 4
        invariant Valid() && !Expired() && Swept(Rejected) && 0 <= b1
        invariant PatternsFail(0, b1)
        decreases |currentTest| - b1
      {
        v := TryPatternsFrom(b1);
        if v != Rejected {
          return;
        }
        b1 := b1 + 1;
      }
      return Rejected;
    }

    method TryPatternsFrom(b1: nat) returns (v: Verdict)
      requires Valid() && !Expired() && b1 < |currentTest| - 4
      modifies `currentTest, `cuts, `lastRead, `ran, `candidateRuns
      ensures Valid() && Shrunk(v)
      ensures v.Rejected? ==> PatternsFail(b1, b1 + 1)
    {
      var b2 := b1 + 2;
      while b2 < |currentTest| - 4
        invariant Valid() && !Expired() && Swept(Rejected) && b1 + 2 <= b2
        invariant forall b: nat, w :: b < b2 && IsPattern(currentTest, b1, b)
                    && w in Replacements(currentTest[b1], currentTest[b1 + 1])
                    ==> !setup.Sat(ChangePattern(currentTest, b1, b, w))
        decreases |currentTest| - b2
      {
        if IsPattern(currentTest, b1, b2) {
          v := TryReplacements(b1, b2);
          if v != Rejected {
            return;
          }
        }
        b2 := b2 + 1;
      }
      return Rejected;
    }

    method TryReplacements(b1: nat, b2: nat) returns (v: Verdict)
      requires Valid() && !Expired() && IsPattern(currentTest, b1, b2)
      modifies `currentTest, `cuts, `lastRead, `ran, `candidateRuns
      ensures Valid() && Shrunk(v)
      ensures v.Rejected? ==>
        forall w :: w in Replacements(currentTest[b1], currentTest[b1 + 1])
          ==> !setup.Sat(ChangePattern(currentTest, b1, b2, w))
    {
      var list := Replacements(currentTest[b1], currentTest[b1 + 1]);
      for i := 0 to |list|
        invariant Valid() && !Expired() && Swept(Rejected)
        invariant forall j :: 0 <= j < i ==> !setup.Sat(ChangePattern(currentTest, b1, b2, list[j]))
      {
        PatternLowers(currentTest, b1, b2, list[i]);
        v := Attempt(ChangePattern(currentTest, b1, b2, list[i]));
        if v != Rejected {
          return;
        }
      }
      return Rejected;
    }

    // ----- passes

    /** What a pass does. */
    twostate predicate Passed(timedOut: bool)
      reads this
    {
      && candidateRuns >= old(candidateRuns)
      && (timedOut <==> Expired())
      && (currentTest != old(currentTest) ==> candidateRuns > old(candidateRuns))
      && (regular ==> LowersOrSame(currentTest, old(currentTest)))
      && (tame ==> NotHeavier(currentTest, old(currentTest)))
      && (currentTest != old(currentTest) ==> setup.Sat(currentTest))
    }

    /** What every pass but the swaps does. */
    twostate predicate Lightened(timedOut: bool)
      reads this
    {
      Passed(timedOut) && (tame ==> SameOrLighter(currentTest, old(currentTest)))
    }

    /** Structured deletions. */
    method CutLoop() returns (timedOut: bool)
      requires Valid() && !Expired() && !setup.noStructure
      modifies `currentTest, `cuts, `lastRead, `ran, `candidateRuns
      ensures Valid() && Lightened(timedOut)
      ensures !timedOut ==> setup.NoCut(currentTest, cuts)
      ensures !timedOut ==> forall c :: c in cuts ==> StretchMatters(setup, currentTest, c)
    {
      var changed := true;
      while changed
        invariant Valid() && !Expired() && Lightened(false)
        invariant !changed ==> setup.NoCut(currentTest, cuts)
        decreases Fuel(), |currentTest|, BigEndian(currentTest), changed
      {
        changed := false;
        var v := TryCuts();
        if v.TimedOut? {
          return true;
        }
        changed := v.Accepted?;
      }
      forall c | c in cuts
        ensures StretchMatters(setup, currentTest, c)
      {
        assert setup.CutFails(currentTest, c);
        StretchInParts(setup, currentTest, c);
      }
      return false;
    }

    method CutPass() returns (timedOut: bool)
      requires Valid() && !Expired() && Remembers()
      modifies `currentTest, `cuts, `lastRead, `ran, `candidateRuns, `memo
      ensures Valid() && Lightened(timedOut) && Remembers()
      ensures stale != Some(currentTest) && !timedOut && !setup.noStructure ==>
        setup.NoCut(currentTest, setup.Cuts(currentTest))
    {
      if setup.noStructure || memo.oneOfRemoval == Some(currentTest) || |cuts| == 0 {
        return false;
      }
      timedOut := CutLoop();
      if !timedOut {
        memo := memo.(oneOfRemoval := Some(currentTest));
      }
    }

    /** Structure edge deletions. */
    method EdgeLoop() returns (timedOut: bool)
      requires Valid() && !Expired() && !setup.noStructure
      modifies `currentTest, `cuts, `lastRead, `ran, `candidateRuns
      ensures Valid() && Lightened(timedOut)
      ensures !timedOut ==> setup.NoEdge(currentTest, cuts)
      ensures !timedOut ==> forall c :: c in cuts ==> EndsMatter(setup, currentTest, c)
    {
      var changed := true;
      while changed
        invariant Valid() && !Expired() && Lightened(false)
        invariant !changed ==> setup.NoEdge(currentTest, cuts)
        decreases Fuel(), |currentTest|, BigEndian(currentTest), changed
      {
        changed := false;
        var v := TryEdges();
        if v.TimedOut? {
          return true;
        }
        changed := v.Accepted?;
      }
      forall c | c in cuts
        ensures EndsMatter(setup, currentTest, c)
      {
        assert setup.EdgeFails(currentTest, c);
        EndsInParts(setup, currentTest, c);
      }
      return false;
    }

    method EdgePass() returns (timedOut: bool)
      requires Valid() && !Expired() && Remembers()
      modifies `currentTest, `cuts, `lastRead, `ran, `candidateRuns, `memo
      ensures Valid() && Lightened(timedOut) && Remembers()
      ensures stale != Some(currentTest) && !timedOut && !setup.noStructure ==>
        setup.NoEdge(currentTest, setup.Cuts(currentTest))
    {
      if setup.noStructure || memo.edgeRemoval == Some(currentTest) || |cuts| == 0 {
        return false;
      }
      timedOut := EdgeLoop();
      if !timedOut {
        memo := memo.(edgeRemoval := Some(currentTest));
      }
    }

    /** Byte reduce and delete. */
    method ReduceLoop(k: nat) returns (timedOut: bool)
      requires Valid() && !Expired() && k > 0
      modifies `currentTest, `cuts, `lastRead, `ran, `candidateRuns
      ensures Valid() && Lightened(timedOut)
      ensures !timedOut ==> setup.NoReduce(currentTest, k) && ReductionsMatter(setup, currentTest, k)
    {
      var changed := true;
      while changed
        invariant Valid() && !Expired() && Lightened(false)
        invariant !changed ==> setup.NoReduce(currentTest, k)
        decreases Fuel(), |currentTest|, BigEndian(currentTest), changed
      {
        changed := false;
        var v := TryReduceAndDelete(k);
        if v.TimedOut? {
          return true;
        }
        changed := v.Accepted?;
      }
      ReductionsInParts(setup, currentTest, k);
      return false;
    }

    method ReducePass(k: nat) returns (timedOut: bool)
      requires Valid() && !Expired() && Remembers() && k > 0
      modifies `currentTest, `cuts, `lastRead, `ran, `candidateRuns, `memo
      ensures Valid() && Lightened(timedOut) && Remembers()
      ensures !timedOut ==> setup.NoReduce(currentTest, k)
    {
      if k in memo.reduceAndDelete && memo.reduceAndDelete[k] == currentTest {
        return false;
      }
      timedOut := ReduceLoop(k);
      if !timedOut {
        memo := memo.(reduceAndDelete := memo.reduceAndDelete[k := currentTest]);
      }
    }

    /** Swapping structures. */
    method SwapLoop() returns (timedOut: bool)
      requires Valid() && !Expired() && !setup.noStructure
      modifies `currentTest, `cuts, `lastRead, `ran, `candidateRuns
      ensures Valid() && Passed(timedOut)
      ensures !timedOut ==> setup.NoSwap(currentTest, cuts)
      ensures !timedOut ==> forall i, j :: 0 <= i < j < |cuts| ==> OrderMatters(setup, currentTest, cuts[i], cuts[j])
    {
      var changed := true;
      while changed
        invariant Valid() && !Expired() && Passed(false)
        invariant !changed ==> setup.NoSwap(currentTest, cuts)
        decreases Fuel(), |currentTest|, BigEndian(currentTest), changed
      {
        changed := false;
        var v := TrySwaps();
        if v.TimedOut? {
          return true;
        }
        changed := v.Accepted?;
      }
      forall i, j | 0 <= i < j < |cuts|
        ensures OrderMatters(setup, currentTest, cuts[i], cuts[j])
      {
        assert setup.NoSwapWith(currentTest, cuts, i, |cuts|) && setup.SwapFails(currentTest, cuts[i], cuts[j]);
        OrderInParts(setup, currentTest, cuts[i], cuts[j]);
      }
      return false;
    }

    method SwapPass() returns (timedOut: bool)
      requires Valid() && !Expired() && Remembers()
      modifies `currentTest, `cuts, `lastRead, `ran, `candidateRuns, `memo
      ensures Valid() && Passed(timedOut) && Remembers()
      ensures stale != Some(currentTest) && !timedOut && !setup.noStructure ==>
        setup.NoSwap(currentTest, setup.Cuts(currentTest))
    {
      if setup.noStructure || memo.oneOfSwap == Some(currentTest) || |cuts| == 0 {
        return false;
      }
      timedOut := SwapLoop();
      if !timedOut {
        memo := memo.(oneOfSwap := Some(currentTest));
      }
    }

    /** Byte pattern search. */
    method PatternLoop() returns (timedOut: bool)
      requires Valid() && !Expired()
      modifies `currentTest, `cuts, `lastRead, `ran, `candidateRuns
      ensures Valid() && Lightened(timedOut)
      ensures !timedOut ==> setup.NoPattern(currentTest) && PatternsMatter(setup, currentTest)
    {
      var changed := true;
      while changed
        invariant Valid() && !Expired() && Lightened(false)
        invariant !changed ==> setup.NoPattern(currentTest)
        decreases Fuel(), |currentTest|, BigEndian(currentTest), changed
      {
        changed := false;
        var v := TryPatterns();
        if v.TimedOut? {
          return true;
        }
        changed := v.Accepted?;
      }
      PatternsInParts(setup, currentTest);
      return false;
    }

    method PatternPass() returns (timedOut: bool)
      requires Valid() && !Expired() && Remembers()
      modifies `currentTest, `cuts, `lastRead, `ran, `candidateRuns, `memo
      ensures Valid() && Lightened(timedOut) && Remembers()
      ensures !timedOut ==> setup.NoPattern(currentTest)
    {
      if memo.patternSearch == Some(currentTest) {
        return false;
      }
      timedOut := PatternLoop();
      if !timedOut {
        memo := memo.(patternSearch := Some(currentTest));
      }
    }

    /** Chunk removals of `k` bytes.  Each sweep starts where the last success was and wraps around. */
    method ChunkLoop(k: nat) returns (timedOut: bool)
      requires Valid() && !Expired() && k > 0
      modifies `currentTest, `cuts, `lastRead, `ran, `candidateRuns
      ensures Valid() && Lightened(timedOut)
      ensures !timedOut ==> setup.NoChunk(currentTest, k) && ChunksMatter(setup, currentTest, k, 0, |currentTest|)
    {
      var changed := true;
      var startingPos: nat := 0;
      while changed
        invariant Valid() && !Expired() && Lightened(false) && startingPos <= |currentTest|
        invariant !changed ==> setup.NoChunk(currentTest, k)
        decreases Fuel(), |currentTest|, BigEndian(currentTest), changed
      {
        changed := false;
        var v, at := SweepChunks(k, startingPos);
        if v.TimedOut? {
          return true;
        }
        if v.Accepted? {
          changed, startingPos := true, at;
        }
      }
      ChunksInParts(setup, currentTest, k, 0, |currentTest|);
      return false;
    }

    method ChunkPass(k: nat) returns (timedOut: bool)
      requires Valid() && !Expired() && Remembers() && k > 0
      modifies `currentTest, `cuts, `lastRead, `ran, `candidateRuns, `memo
      ensures Valid() && Lightened(timedOut) && Remembers()
      ensures !timedOut ==> setup.NoChunk(currentTest, k)
    {
      if k in memo.chunkRemoval && memo.chunkRemoval[k] == currentTest {
        return false;
      }
      timedOut := ChunkLoop(k);
      if !timedOut {
        memo := memo.(chunkRemoval := memo.chunkRemoval[k := currentTest]);
      }
    }

    /** Byte range removals.  Each sweep starts where the last success was and wraps around. */
    method RangeLoop() returns (timedOut: bool)
      requires Valid() && !Expired()
      modifies `currentTest, `cuts, `lastRead, `ran, `candidateRuns
      ensures Valid() && Lightened(timedOut)
      ensures !timedOut ==> setup.NoRange(currentTest, maxByteRange) && RangesMatter(setup, currentTest, maxByteRange)
    {
      var changed := true;
      var startingPos: nat := 0;
      while changed
        invariant Valid() && !Expired() && Lightened(false) && startingPos <= |currentTest|
        invariant !changed ==> setup.NoRange(currentTest, maxByteRange)
        decreases Fuel(), |currentTest|, BigEndian(currentTest), changed
      {
        changed := false;
        var v, at := SweepRanges(startingPos);
        if v.TimedOut? {
          return true;
        }
        if v.Accepted? {
          changed, startingPos := true, at;
        }
      }
      RangesInParts(setup, currentTest, maxByteRange);
      return false;
    }

    method RangePass() returns (timedOut: bool)
      requires Valid() && !Expired() && Remembers()
      modifies `currentTest, `cuts, `lastRead, `ran, `candidateRuns, `memo
      ensures Valid() && Lightened(timedOut) && Remembers()
      ensures !timedOut ==> setup.NoRange(currentTest, maxByteRange)
    {
      if memo.allRange == Some(currentTest) {
        return false;
      }
      timedOut := RangeLoop();
      if !timedOut {
        memo := memo.(allRange := Some(currentTest));
      }
    }

    /** Byte reductions.  Each sweep starts where the last success was and wraps around. */
    method ByteLoop() returns (timedOut: bool)
      requires Valid() && !Expired()
      modifies `currentTest, `cuts, `lastRead, `ran, `candidateRuns
      ensures Valid() && Lightened(timedOut)
      ensures !timedOut ==> setup.NoLower(currentTest) && BytesMatter(setup, currentTest)
    {
      var changed := true;
      var startingPos: nat := 0;
      while changed
        invariant Valid() && !Expired() && Lightened(false) && startingPos <= |currentTest|
        invariant !changed ==> setup.NoLower(currentTest)
        decreases Fuel(), |currentTest|, BigEndian(currentTest), changed
      {
        changed := false;
        var v, at := SweepBytes(startingPos);
        if v.TimedOut? {
          return true;
        }
        if v.Accepted? {
          changed, startingPos := true, at + 1;
        }
      }
      BytesInParts(setup, currentTest);
      return false;
    }

    method BytePass() returns (timedOut: bool)
      requires Valid() && !Expired() && Remembers()
      modifies `currentTest, `cuts, `lastRead, `ran, `candidateRuns, `memo
      ensures Valid() && Lightened(timedOut) && Remembers()
      ensures !timedOut ==> setup.NoLower(currentTest)
    {
      if memo.byteReduce == Some(currentTest) {
        return false;
      }
      timedOut := ByteLoop();
      if !timedOut {
        memo := memo.(byteReduce := Some(currentTest));
      }
    }

    // ----- rounds

    method CutRound() returns (timedOut: bool)
      requires Valid() && !Expired() && Remembers()
      modifies `currentTest, `cuts, `lastRead, `ran, `candidateRuns, `memo
      ensures Valid() && Lightened(timedOut) && Remembers()
      ensures tame && stale != Some(currentTest) && !timedOut && currentTest == old(currentTest) ==>
        setup.NoStructureDeletion(currentTest)
    {
      timedOut := CutPass();
      if timedOut {
        return;
      }
      ghost var t1 := currentTest;
      timedOut := EdgePass();
      Settled(currentTest, currentTest, t1, old(currentTest));
    }

    method ChunkRound() returns (timedOut: bool)
      requires Valid() && !Expired() && Remembers()
      modifies `currentTest, `cuts, `lastRead, `ran, `candidateRuns, `memo
      ensures Valid() && Lightened(timedOut) && Remembers()
      ensures tame && !timedOut && currentTest == old(currentTest) ==> setup.NoChunks(currentTest)
    {
      timedOut := ChunkPass(1);
      if timedOut {
        return;
      }
      ghost var t1 := currentTest;
      timedOut := ChunkPass(4);
      if timedOut {
        return;
      }
      ghost var t2 := currentTest;
      timedOut := ChunkPass(8);
      Settled(currentTest, t2, t1, old(currentTest));
    }

    method ReduceRound() returns (timedOut: bool)
      requires Valid() && !Expired() && Remembers()
      modifies `currentTest, `cuts, `lastRead, `ran, `candidateRuns, `memo
      ensures Valid() && Lightened(timedOut) && Remembers()
      ensures tame && !timedOut && currentTest == old(currentTest) ==> setup.NoReduces(currentTest)
    {
      timedOut := ReducePass(1);
      if timedOut {
        return;
      }
      ghost var t1 := currentTest;
      timedOut := ReducePass(4);
      if timedOut {
        return;
      }
      ghost var t2 := currentTest;
      timedOut := ReducePass(8);
      Settled(currentTest, t2, t1, old(currentTest));
    }

    method OrderRound() returns (timedOut: bool)
      requires Valid() && !Expired() && Remembers()
      modifies `currentTest, `cuts, `lastRead, `ran, `candidateRuns, `memo
      ensures Valid() && Passed(timedOut) && Remembers()
      ensures tame && stale != Some(currentTest) && !timedOut && currentTest == old(currentTest) ==>
        setup.NoReordering(currentTest, maxByteRange)
    {
      if !setup.fast {
        timedOut := RangePass();
        if timedOut {
          return;
        }
      }
      ghost var t1 := currentTest;
      timedOut := SwapPass();
      if timedOut {
        return;
      }
      ghost var t2 := currentTest;
      timedOut := BytePass();
      Settled(currentTest, t2, t1, old(currentTest));
    }

    method DeletionRound() returns (timedOut: bool)
      requires Valid() && !Expired() && Remembers()
      modifies `currentTest, `cuts, `lastRead, `ran, `candidateRuns, `memo
      ensures Valid() && Lightened(timedOut) && Remembers()
      ensures tame && stale != Some(currentTest) && !timedOut && currentTest == old(currentTest) ==>
        setup.NoDeletion(currentTest)
    {
      timedOut := CutRound();
      if timedOut {
        return;
      }
      ghost var t1 := currentTest;
      timedOut := ChunkRound();
      if timedOut {
        return;
      }
      ghost var t2 := currentTest;
      timedOut := ReduceRound();
      Settled(currentTest, t2, t1, old(currentTest));
    }

    /** Rounds of passes until one leaves the test as it was. */
    method MainLoop() returns (timedOut: bool)
      requires Valid() && !Expired() && Remembers()
      modifies `currentTest, `cuts, `lastRead, `ran, `candidateRuns, `memo
      ensures Valid() && Passed(timedOut)
      ensures tame && stale != Some(currentTest) && !timedOut ==> Irreducible(setup, currentTest, maxByteRange)
    {
      var oldTest: Option<seq<byte>> := None;
      while oldTest != Some(currentTest)
        invariant Valid() && !Expired() && Remembers() && Passed(false)
        invariant tame && stale != Some(currentTest) && oldTest == Some(currentTest) ==>
          Irreducible(setup, currentTest, maxByteRange)
        decreases Fuel(), |currentTest|, BigEndian(currentTest), oldTest != Some(currentTest)
      {
        oldTest := Some(currentTest);
        timedOut := Round(currentTest);
        if timedOut {
          return;
        }
      }
      return false;
    }

    method Round(oldTest: seq<byte>) returns (timedOut: bool)
      requires Valid() && !Expired() && Remembers() && oldTest == currentTest
      modifies `currentTest, `cuts, `lastRead, `ran, `candidateRuns, `memo
      ensures Valid() && Passed(timedOut) && Remembers()
      ensures tame && stale != Some(currentTest) && !timedOut && currentTest == old(currentTest) ==>
        Irreducible(setup, currentTest, maxByteRange)
    {
      timedOut := DeletionRound();
      if timedOut {
        return;
      }
      ghost var t1 := currentTest;
      timedOut := OrderRound();
      if timedOut {
        return;
      }
      ghost var t2 := currentTest;
      if (setup.slow || setup.slowest) && oldTest == currentTest {
        timedOut := PatternPass();
      }
      Settled(currentTest, t2, t1, oldTest);
      MinimalIsIrreducible(setup, currentTest, maxByteRange);
    }

    // ----- the whole reduction

    /** Reduce `test`.  Whatever the harness, the options and the moment the time
        limit strikes, the result satisfies the criterion, unless it is still the
        truncated first test and an odd boolean was dropped.  If no test can grow, the
        reduction never lengthens the test and stops by itself only when no candidate
        of an enabled pass is left, unless it still stands at a first test that lost
        something.  On a regular harness it also ends without a time limit. */
    method Reduce(test: seq<byte>) returns (result: Outcome)
      requires setup.Runs(program) && candidateRuns == 0 && memo == EMPTY_MEMO && maxByteRange == setup.maxByteRange
      requires setup.deadline.None? ==> setup.Regular(test)
      modifies this
      ensures RefusedRightly(setup, test, if result.Reduced? then None else Some(result))
      ensures result.Reduced? ==> Delivered(setup, test, result.core, result.padded, result.timedOut)
      ensures result.Reduced? ==> (result.timedOut <==> !setup.Admits(candidateRuns))
    {
      var refused := Begin(test);
      if refused.Some? {
        return refused.value;
      }
      var padded, timedOut := Continue(test);
      result := Reduced(currentTest, padded, timedOut);
    }

    /** The loop, and the zeros at the end. */
    method Continue(ghost test: seq<byte>) returns (padded: seq<byte>, timedOut: bool)
      requires Valid() && Remembers() && !Expired() && Started(test, setup.Tidy(test))
      requires maxByteRange == if setup.slowest then |test| else setup.maxByteRange
      modifies `currentTest, `cuts, `lastRead, `ran, `candidateRuns, `memo
      ensures Delivered(setup, test, currentTest, padded, timedOut) && (timedOut <==> !setup.Admits(candidateRuns))
    {
      ghost var first := currentTest;
      timedOut := MainLoop();
      Concluded(test, setup.Tidy(test), first, timedOut);
      padded := Pad();
      Deliver(test, padded, timedOut);
    }

    /** What is known of the test at the end. */
    ghost predicate Finished(test: seq<byte>, timedOut: bool)
      reads this
    {
      && (setup.NeverGrows(test) ==> |currentTest| <= |test|)
      && (setup.Regular(test) ==> LowersOrSame(currentTest, test))
      && (!BoolsDropped(setup, test, currentTest) ==>
            setup.Sat(currentTest) && lastRead == setup.LastReadOf(currentTest))
      && (setup.NeverGrows(test) && !StillTruncated(setup, test, currentTest) && !timedOut ==>
            Irreducible(setup, currentTest, maxByteRange))
    }

    lemma Deliver(test: seq<byte>, padded: seq<byte>, timedOut: bool)
      requires Finished(test, timedOut) && (setup.deadline.None? ==> !timedOut)
      requires maxByteRange == if setup.slowest then |test| else setup.maxByteRange
      requires ZerosAfter(currentTest, padded) && (setup.Sat(padded) <==> setup.Sat(currentTest))
      requires |padded| == if setup.noPad then |currentTest| else AtLeast(|currentTest|, lastRead + 1)
      ensures Delivered(setup, test, currentTest, padded, timedOut)
    {
    }

    /** What holds at the end of the loop. */
    lemma Concluded(test: seq<byte>, tidy: seq<byte>, first: seq<byte>, timedOut: bool)
      requires Valid() && tidy == setup.Tidy(test) && first == Shorten(setup, tidy)
      requires kept == setup.KeptByTruncation(tidy) && stale == if Keeps(setup, tidy) then None else Some(first)
      requires tame == setup.NeverGrows(test) && regular == setup.Regular(test)
      requires regular ==> LowersOrSame(currentTest, first)
      requires tame ==> NotHeavier(currentTest, first)
      requires tame && stale != Some(currentTest) && !timedOut ==> Irreducible(setup, currentTest, maxByteRange)
      ensures Finished(test, timedOut)
    {
      FirstIsLower(test, first);
      if regular {
        LowersTransitive(currentTest, first, test);
      }
    }

    /** The two runs before the loop, and the first truncation. */
    method Begin(test: seq<byte>) returns (refused: Option<Outcome>)
      requires setup.Runs(program) && candidateRuns == 0 && memo == EMPTY_MEMO && maxByteRange == setup.maxByteRange
      requires setup.deadline.None? ==> setup.Regular(test)
      modifies this
      ensures RefusedRightly(setup, test, refused)
      ensures refused.None? ==>
        && Valid() && Remembers() && !Expired() && Started(test, setup.Tidy(test))
        && maxByteRange == if setup.slowest then |test| else setup.maxByteRange
    {
      var r;
      refused, r := RunTwice(test);
      if refused.None? {
        SatOfTidy(test);
        Start(test, r);
      }
    }

    /** The test as it is, and rewritten; the rewritten one becomes the current test. */
    method RunTwice(test: seq<byte>) returns (refused: Option<Outcome>, r: Run)
      requires setup.Runs(program) && candidateRuns == 0 && maxByteRange == setup.maxByteRange
      modifies `candidateRuns, `maxByteRange, `currentTest
      ensures RefusedRightly(setup, test, refused)
      ensures refused.None? ==>
        && !Expired() && maxByteRange == (if setup.slowest then |test| else setup.maxByteRange)
        && currentTest == setup.Tidy(test) && r == setup.binary(currentTest) && setup.Sat(currentTest)
    {
      candidateRuns := candidateRuns + 1;
      r := setup.binary(test);
      if Expired() {
        return Some(TooSlow), r;
      }
      if !setup.search && !setup.Checks(r) {
        return Some(NotSatisfying), r;
      }
      if setup.slowest {
        maxByteRange := |test|;
      }
      currentTest := Rewrite(test, r);
      candidateRuns := candidateRuns + 1;
      SatOfTidy(test);
      r := setup.binary(currentTest);
      if Expired() {
        return Some(TooSlow), r;
      }
      if !setup.Checks(r) {
        return Some(AssertionFailed), r;
      }
      return None, r;
    }

    lemma SatOfTidy(test: seq<byte>)
      requires setup.Runs(program)
      ensures setup.Sat(setup.Tidy(test)) <==> setup.Sat(test)
      ensures SameOrLighter(setup.Tidy(test), test)
    {
      TidyIsSafe(setup, program, test);
    }

    lemma FirstIsLower(test: seq<byte>, first: seq<byte>)
      requires setup.Runs(program) && first == Shorten(setup, setup.Tidy(test))
      ensures LowersOrSame(first, test) && SameOrLighter(first, test)
    {
      TidyIsSafe(setup, program, test);
      TruncationIsSafe(setup, program, setup.Tidy(test));
      LowersTransitive(first, setup.Tidy(test), test);
    }

    /** The test, and what is known of it, where the loop begins, once `tidy` was run. */
    ghost predicate Started(test: seq<byte>, tidy: seq<byte>)
      reads this
    {
      && currentTest == Shorten(setup, tidy) && kept == setup.KeptByTruncation(tidy)
      && stale == (if Keeps(setup, tidy) then None else Some(currentTest))
      && tame == setup.NeverGrows(test) && regular == setup.Regular(test)
    }

    ghost method Promise(test: seq<byte>)
      modifies `bound, `tame, `regular
      ensures bound == test && tame == setup.NeverGrows(test) && regular == setup.Regular(test)
    {
      bound, tame, regular := test, setup.NeverGrows(test), setup.Regular(test);
    }

    method Start(ghost test: seq<byte>, r: Run)
      requires setup.Runs(program) && memo == EMPTY_MEMO
      requires r == setup.binary(currentTest) && setup.Sat(currentTest)
      requires SameOrLighter(currentTest, test)
      requires setup.deadline.None? ==> setup.Regular(test)
      modifies `currentTest, `cuts, `lastRead, `ran, `bound, `tame, `regular, `kept, `stale
      ensures Valid() && Remembers() && Started(test, old(currentTest))
    {
      Promise(test);
      Truncate(r);
      StartsValid(test);
    }

    lemma StartsValid(test: seq<byte>)
      requires setup.Runs(program) && memo == EMPTY_MEMO && (setup.deadline.None? ==> regular)
      requires Grounded()
      requires bound == test && tame == setup.NeverGrows(test) && regular == setup.Regular(test)
      requires SameOrLighter(currentTest, test)
      ensures Valid() && Remembers()
    {
      PromiseHolds(setup, test);
    }

    /** Take the structure of the checked test, and drop the bytes after its last read. */
    method Truncate(r: Run)
      requires setup.Runs(program) && r == setup.binary(currentTest) && setup.Sat(currentTest)
      modifies `currentTest, `cuts, `lastRead, `ran, `kept, `stale
      ensures Grounded()
      ensures currentTest == Shorten(setup, old(currentTest)) && kept == setup.KeptByTruncation(old(currentTest))
      ensures stale == if Keeps(setup, old(currentTest)) then None else Some(currentTest)
      ensures SameOrLighter(currentTest, old(currentTest))
    {
      ghost var test := currentTest;
      currentTest, cuts, lastRead := FindAndShorten(currentTest, r);
      KnownAfterTruncation(test, currentTest, cuts, lastRead);
      ran, kept := test, setup.KeptByTruncation(test);
      stale := if Keeps(setup, test) then None else Some(currentTest);
    }

    lemma KnownAfterTruncation(test: seq<byte>, short: seq<byte>, found: seq<Cut>, last: int)
      requires setup.Runs(program) && setup.Sat(test)
      requires short == Shorten(setup, test) && found == setup.CutsOfRun(setup.binary(test), |test| - 1, short)
      requires last == setup.LastReadOf(test)
      ensures SameOrLighter(short, test)
      ensures Known(setup, test, short, found, last, setup.KeptByTruncation(test), Keeps(setup, test))
    {
      TruncationIsSafe(setup, program, test);
    }

    method FindAndShorten(test: seq<byte>, r: Run) returns (short: seq<byte>, found: seq<Cut>, last: int)
      requires setup.Runs(program) && r == setup.binary(test)
      ensures short == Shorten(setup, test) && found == setup.CutsOfRun(r, |test| - 1, short)
      ensures last == setup.LastReadOf(test)
    {
      var oneOfs: seq<Cut>;
      oneOfs, last := FindOneOfs(r, test, |test|);
      short := ShortenAfter(test, last);
      found := AugmentWithDelims(oneOfs, short, setup.noStaticStructure);
    }

    method ShortenAfter(test: seq<byte>, last: int) returns (short: seq<byte>)
      requires last == setup.LastReadOf(test)
      ensures short == Shorten(setup, test)
    {
      ShortenIs(setup, test, last);
      short := if last + 1 < |test| then Upto(test, last + 1) else test;
    }

    /** Zeros up to the last position read. */
    method Pad() returns (padded: seq<byte>)
      requires Valid()
      ensures ZerosAfter(currentTest, padded) && (setup.Sat(padded) <==> setup.Sat(currentTest))
      ensures |padded| == if setup.noPad then |currentTest| else AtLeast(|currentTest|, lastRead + 1)
    {
      padded := currentTest;
      if !setup.noPad && lastRead + 1 > |currentTest| {
        var zeros := seq<byte>(lastRead + 1 - |currentTest|, _ => 0);
        PaddingRepeats(program, currentTest, zeros);
        padded := currentTest + zeros;
        assert setup.binary(padded) == Execute(program, padded);
        assert setup.binary(currentTest) == Execute(program, currentTest);
      }
    }
  }
}
