/** A harness on which the swap pass goes round in a circle: its calls read first,
    yet only the time limit stops the reducer. */
module SwapCycle {
  import opened Words
  import opened Programs
  import opened Structure
  import opened Candidates
  import opened Scripts

  const ONE: seq<byte> := [2, 1, 2]
  const OTHER: seq<byte> := [2, 2, 1]

  // ----- the harness

  /** One byte in a call, a second one in a nested call, a third in another call. */
  const CALLS: seq<Request> := [
    EnterOneOf, Byte(false), EnterOneOf, Byte(false), LeaveOneOf, LeaveOneOf, EnterOneOf, Byte(false), LeaveOneOf
  ]

  const LOG: seq<Event> := [
    StartOneOf, ReadByte(0), StartOneOf, ReadByte(1), FinishOneOf, FinishOneOf, StartOneOf, ReadByte(2), FinishOneOf
  ]

  function Wanted(got: seq<int>): int {
    if got == ONE || got == OTHER then 1 else 0
  }

  ghost function Cycler(code: seq<int> -> int): Program {
    Script(CALLS, [], code)
  }

  lemma CyclerShape(c: seq<Request>, log: seq<Event>)
    requires c == CALLS && log == LOG
    ensures Shaped(c, log, 0, 0, 0, 3)
  {
    CyclerTail(c, log);
    CyclerMiddle(c, log);
    ShapeOfEnter(c, log, 2, 1, 1, 2);
    ShapeOfByte(c, log, 1, 0, 1, 2);
    ShapeOfEnter(c, log, 0, 0, 0, 3);
  }

  lemma CyclerMiddle(c: seq<Request>, log: seq<Event>)
    requires c == CALLS && log == LOG && Shaped(c, log, 6, 2, 0, 1)
    ensures Shaped(c, log, 3, 1, 2, 2)
  {
    ShapeOfLeave(c, log, 5, 2, 0, 1);
    ShapeOfLeave(c, log, 4, 2, 1, 1);
    ShapeOfByte(c, log, 3, 1, 2, 1);
  }

  lemma CyclerTail(c: seq<Request>, log: seq<Event>)
    requires c == CALLS && log == LOG
    ensures Shaped(c, log, 6, 2, 0, 1)
  {
    assert Shaped(c, log, 9, 3, 0, 0);
    ShapeOfLeave(c, log, 8, 3, 0, 0);
    ShapeOfByte(c, log, 7, 2, 1, 0);
    ShapeOfEnter(c, log, 6, 2, 0, 1);
  }

  lemma ScanThrough(log: seq<Event>, lastByte: int)
    requires log == LOG
    ensures Scanned(log, 2, lastByte, [0], 0, [])
  {
    assert Scanned(log, 0, lastByte, [], lastByte, []);
    ScanStart(log, 0, lastByte, [], lastByte, [], [-1]);
    ScanRead(log, 1, lastByte, [-1], lastByte, [], [0], 0);
  }

  lemma ScanThroughRead(log: seq<Event>, lastByte: int)
    requires log == LOG && Scanned(log, 2, lastByte, [0], 0, [])
    ensures Scanned(log, 4, lastByte, [0, 1], 1, [])
  {
    ScanStart(log, 2, lastByte, [0], 0, [], [0, -1]);
    ScanRead(log, 3, lastByte, [0, -1], 0, [], [0, 1], 1);
  }

  lemma ScanThroughInner(log: seq<Event>, lastByte: int)
    requires log == LOG && Scanned(log, 4, lastByte, [0, 1], 1, [])
    ensures Scanned(log, 5, lastByte, [0], 1, [(1, 1)])
  {
    assert [0] + [1] == [0, 1] && [] + [(1, 1)] == [(1, 1)];
    ScanFinish(log, 4, lastByte, [0], 1, 1, []);
  }

  lemma ScanThroughNested(log: seq<Event>, lastByte: int)
    requires log == LOG && Scanned(log, 5, lastByte, [0], 1, [(1, 1)])
    ensures Scanned(log, 6, lastByte, [], 1, [(1, 1), (0, 1)])
  {
    assert [] + [0] == [0] && [(1, 1)] + [(0, 1)] == [(1, 1), (0, 1)];
    ScanFinish(log, 5, lastByte, [], 0, 1, [(1, 1)]);
  }

  lemma ScanThroughLast(log: seq<Event>, lastByte: int, cuts: seq<Cut>)
    requires log == LOG && Scanned(log, 6, lastByte, [], 1, cuts)
    ensures Scanned(log, 9, lastByte, [], 2, cuts + [(2, 2)])
  {
    ScanStart(log, 6, lastByte, [], 1, cuts, [-1]);
    ScanRead(log, 7, lastByte, [-1], 1, cuts, [2], 2);
    assert [] + [2] == [2];
    ScanFinish(log, 8, lastByte, [], 2, 2, cuts);
  }

  lemma StructureOfLog(log: seq<Event>, lastByte: int)
    requires log == LOG
    ensures CutsOfLog(log, lastByte) == [(1, 1), (0, 1), (2, 2)]
  {
    ScanThrough(log, lastByte);
    ScanThroughRead(log, lastByte);
    ScanThroughInner(log, lastByte);
    ScanThroughNested(log, lastByte);
    ScanThroughLast(log, lastByte, [(1, 1), (0, 1)]);
    assert [(1, 1), (0, 1)] + [(2, 2)] == [(1, 1), (0, 1), (2, 2)];
    assert log[..9] == log;
  }

  lemma OpensStep(log: seq<Event>, k: nat)
    requires k < |log|
    ensures var before := Opens(log[..k]);
      Opens(log[..k + 1])
        == if log[k].StartOneOf? then before + [k]
           else if log[k].FinishOneOf? && before != [] then before[..|before| - 1] else before
  {
    assert Front(log[..k + 1]) == log[..k] && Last(log[..k + 1]) == log[k];
  }

  lemma OpensOfLog(log: seq<Event>)
    requires log == LOG
    ensures Opens(log[..0]) == [] && Opens(log[..2]) == [0] && Opens(log[..4]) == [0, 2] && Opens(log[..5]) == [0]
  {
    OpensStep(log, 0);
    OpensStep(log, 1);
    OpensStep(log, 2);
    OpensStep(log, 3);
    OpensStep(log, 4);
  }

  lemma OpensOfTail(log: seq<Event>)
    requires log == LOG && Opens(log[..5]) == [0]
    ensures Opens(log[..6]) == [] && Opens(log[..8]) == [6]
  {
    OpensStep(log, 5);
    OpensStep(log, 6);
    OpensStep(log, 7);
  }

  lemma CallsReadFirst(log: seq<Event>)
    requires log == LOG
    ensures ReadsFirst(log)
  {
    OpensOfLog(log);
    OpensOfTail(log);
    forall k | 0 <= k < |log| && (log[k].StartOneOf? || log[k].FinishOneOf?) && Opens(log[..k]) != []
      ensures ReadIn(log, Last(Opens(log[..k])), k)
    {
      assert log[1].ReadByte? && log[3].ReadByte? && log[7].ReadByte?;
      assert k == 2 || k == 4 || k == 5 || k == 8;
    }
  }

  /** The test can be swapped, and no pass before the swaps changes it. */
  ghost predicate SwapsOnly(setup: Setup, test: seq<byte>) {
    && setup.Sat(test) && setup.NoDeletion(test) && (forall width :: setup.NoRange(test, width))
    && !setup.NoSwap(test, setup.Cuts(test))
  }

  /** On this harness the passes before the swaps leave each of the two tests alone.
      Each has a satisfying swap, and every satisfying test of that length is one of
      the two, so the swap pass is reached and never finds itself without a candidate.
      The swap from ONE to OTHER raises the test. */
  lemma SwapPassNeverEnds(setup: Setup)
    requires setup.Runs(Cycler(Wanted)) && !setup.noStructure && setup.noStaticStructure
    requires forall lines, exit :: setup.criterion(lines, exit) <==> exit == Exited(1)
    ensures forall test :: ReadsFirst(setup.binary(test).log)
    ensures SwapsOnly(setup, ONE) && SwapsOnly(setup, OTHER)
    ensures forall test :: |test| < 3 ==> !setup.Sat(test)
    ensures forall test :: |test| == 3 && setup.Sat(test) ==> test == ONE || test == OTHER
    ensures (forall bound :: setup.NeverGrows(bound)) && !setup.Regular(ONE)
  {
    CallsReadFirst(LOG);
    forall test
      ensures ReadsFirst(setup.binary(test).log) && setup.StartsInside(test)
    {
      OnTest(setup, Wanted, test);
      ReadingFirstStartsInside(setup, Cycler(Wanted), test);
    }
    forall bound
      ensures setup.NeverGrows(bound)
    {
      InsideNeverGrows(setup, Cycler(Wanted), bound);
    }
    OnTest(setup, Wanted, ONE);
    OnTest(setup, Wanted, OTHER);
    OnlyTheTwo(setup);
    NoneShorter(setup);
    ExchangeOne();
    ExchangeOther();
    Exchanges(setup, ONE, OTHER, (1, 1), (0, 1), (2, 2));
  }

  lemma OnlyTheTwo(setup: Setup)
    requires setup.Runs(Cycler(Wanted)) && !setup.noStructure && setup.noStaticStructure
    requires forall lines, exit :: setup.criterion(lines, exit) <==> exit == Exited(1)
    ensures setup.Sat(ONE) && setup.Sat(OTHER)
    ensures forall test :: |test| == 3 && setup.Sat(test) ==> test == ONE || test == OTHER
  {
    forall test: seq<byte> | |test| == 3
      ensures setup.Sat(test) <==> test == ONE || test == OTHER
    {
      OnTest(setup, Wanted, test);
      assert Window(test, 0, 3) == test;
    }
  }

  lemma NoneShorter(setup: Setup)
    requires setup.Runs(Cycler(Wanted)) && !setup.noStructure && setup.noStaticStructure
    requires forall lines, exit :: setup.criterion(lines, exit) <==> exit == Exited(1)
    ensures forall test :: |test| < 3 ==> !setup.Sat(test)
  {
    forall test: seq<byte> | |test| < 3
      ensures !setup.Sat(test)
    {
      OnTest(setup, Wanted, test);
      assert Window(test, 0, 3)[2] == 0;
    }
  }

  /** If no shorter test satisfies the criterion, nothing can be deleted. */
  lemma NothingShorter(setup: Setup, test: seq<byte>, cuts: seq<Cut>)
    requires forall t: seq<byte> :: |t| < |test| ==> !setup.Sat(t)
    requires cuts == setup.Cuts(test) && forall c :: c in cuts ==> Proper(c)
    ensures setup.NoDeletion(test) && forall width :: setup.NoRange(test, width)
  {
    NoChunkShorter(setup, test, 1);
    NoChunkShorter(setup, test, 4);
    NoChunkShorter(setup, test, 8);
    forall c | c in cuts
      ensures setup.CutFails(test, c) && setup.EdgeFails(test, c)
    {
      CutLengthensExactly(test, c);
      EdgesLengthenExactly(test, c);
    }
    forall width
      ensures setup.NoRange(test, width)
    {
      NoRangeShorter(setup, test, width);
    }
  }

  /** There are such settings. */
  lemma CyclerCanBeReduced() returns (setup: Setup)
    ensures setup.Runs(Cycler(Wanted)) && !setup.noStructure && setup.noStaticStructure && setup.deadline.None?
    ensures forall lines, exit :: setup.criterion(lines, exit) <==> exit == Exited(1)
  {
    setup := Setup(test => Execute(Cycler(Wanted), test), (_: seq<string>, exit) => exit == Exited(1),
                   false, true, false, false, false, false, false, 4096, None);
  }

  lemma OnTest(setup: Setup, code: seq<int> -> int, test: seq<byte>)
    requires setup.Runs(Cycler(code)) && !setup.noStructure && setup.noStaticStructure
    requires forall lines, exit :: setup.criterion(lines, exit) <==> exit == Exited(1)
    ensures setup.binary(test).log == LOG && setup.Cuts(test) == [(1, 1), (0, 1), (2, 2)]
    ensures setup.Sat(test) <==> code(Window(test, 0, 3)) == 1
  {
    RunOnTest(code, test);
    StructureOfLog(LOG, |test| - 1);
    assert setup.binary(test) == Execute(Cycler(code), test);
  }

  lemma RunOnTest(code: seq<int> -> int, test: seq<byte>)
    ensures Execute(Cycler(code), test).log == LOG
    ensures Execute(Cycler(code), test).exit == Exited(code(Window(test, 0, 3)))
  {
    CyclerShape(CALLS, LOG);
    assert CALLS[0..] == CALLS && LOG[0..] == LOG;
    RunScript(Cycler(code), CALLS, [], code, test, 0, 0);
    assert [] + Window(test, 0, 3) == Window(test, 0, 3);
  }

  /** The two swaps. */
  lemma ExchangeOne()
    ensures CanSwap(ONE, (0, 1), (2, 2)) && Swap(ONE, (0, 1), (2, 2)) == OTHER
    ensures !Lowers(OTHER, ONE)
  {
    assert Slice(ONE, 0, 2) == [2, 1] && Slice(ONE, 2, 3) == [2] && Slice(ONE, 2, 2) == [];
    assert Upto(ONE, 0) == [] && Past(ONE, 3) == [];
    assert [2, 1][1..] == [1] && [2][1..] == [];
    BigEndianOrder(ONE, OTHER, 1);
  }

  lemma ExchangeOther()
    ensures CanSwap(OTHER, (1, 1), (2, 2)) && Swap(OTHER, (1, 1), (2, 2)) == ONE
  {
    assert Slice(OTHER, 1, 2) == [2] && Slice(OTHER, 2, 3) == [1] && Slice(OTHER, 2, 2) == [];
    assert Upto(OTHER, 1) == [2] && Past(OTHER, 3) == [];
  }

  lemma SwapRefutes(setup: Setup, test: seq<byte>, cuts: seq<Cut>, i: nat, j: nat)
    requires i < j < |cuts| && CanSwap(test, cuts[i], cuts[j]) && setup.Sat(Swap(test, cuts[i], cuts[j]))
    ensures !setup.NoSwap(test, cuts)
  {
    assert !setup.SwapFails(test, cuts[i], cuts[j]);
    assert !setup.NoSwapWith(test, cuts, i, |cuts|);
  }

  lemma StuckHere(setup: Setup, test: seq<byte>, cuts: seq<Cut>, i: nat, j: nat, next: seq<byte>)
    requires setup.Sat(test) && cuts == setup.Cuts(test) && forall c :: c in cuts ==> Proper(c)
    requires forall t: seq<byte> :: |t| < |test| ==> !setup.Sat(t)
    requires i < j < |cuts| && CanSwap(test, cuts[i], cuts[j])
    requires Swap(test, cuts[i], cuts[j]) == next && setup.Sat(next)
    ensures SwapsOnly(setup, test)
  {
    NothingShorter(setup, test, cuts);
    SwapRefutes(setup, test, cuts, i, j);
  }

  lemma Exchanges(setup: Setup, one: seq<byte>, other: seq<byte>, inner: Cut, outer: Cut, third: Cut)
    requires !setup.noStructure && setup.Sat(one) && setup.Sat(other) && |one| == |other|
    requires setup.Cuts(one) == [inner, outer, third] == setup.Cuts(other)
    requires Proper(inner) && Proper(outer) && Proper(third)
    requires forall t: seq<byte> :: |t| < |one| ==> !setup.Sat(t)
    requires CanSwap(one, outer, third) && Swap(one, outer, third) == other && !Lowers(other, one)
    requires CanSwap(other, inner, third) && Swap(other, inner, third) == one
    ensures SwapsOnly(setup, one) && SwapsOnly(setup, other)
    ensures !setup.Regular(one)
  {
    var cuts := [inner, outer, third];
    assert cuts[0] == inner && cuts[1] == outer && cuts[2] == third;
    StuckHere(setup, one, cuts, 1, 2, other);
    StuckHere(setup, other, cuts, 0, 2, one);
    SwapsUp(setup, one, outer, third);
  }

  lemma SwapsUp(setup: Setup, test: seq<byte>, ci: Cut, cj: Cut)
    requires !setup.noStructure && ci in setup.Cuts(test) && cj in setup.Cuts(test) && CanSwap(test, ci, cj)
    requires setup.Sat(test) && setup.Sat(Swap(test, ci, cj)) && !Lowers(Swap(test, ci, cj), test)
    ensures !setup.Regular(test)
  {
    assert setup.Swaps(test, test, ci, cj);
  }
}
