/** A harness whose outer call makes a nested call before it reads: a round of the
    reducer lengthens the test, shortens it again and stops, although the test can
    still be cut. */
module NestedFirst {
  import opened Words
  import opened Programs
  import opened RangeRewrite
  import opened Structure
  import opened Candidates
  import opened Scripts

  const SHORT: seq<byte> := [1, 2, 3]
  const LONG: seq<byte> := [1, 2, 2, 3]

  /** Two nested calls around the first of four bytes. */
  const CALLS: seq<Request> := [
    EnterOneOf, EnterOneOf, Byte(false), LeaveOneOf, LeaveOneOf, Byte(false), Byte(false), Byte(false)
  ]

  const LOG: seq<Event> := [
    StartOneOf, StartOneOf, ReadByte(0), FinishOneOf, FinishOneOf, ReadByte(1), ReadByte(2), ReadByte(3)
  ]

  /** The stretch of the outer call starts at -1, for want of a read of its own. */
  const INNER: Cut := (0, 0)
  const OUTER: Cut := (-1, 0)

  /** 1, 2, 3, 0 or 1, 2, 2, 3. */
  predicate Hits(a: int, b: int, c: int, d: int) {
    a == 1 && b == 2 && ((c == 3 && d == 0) || (c == 2 && d == 3))
  }

  function Wanted(got: seq<int>): int {
    if |got| == 4 && Hits(got[0], got[1], got[2], got[3]) then 1 else 0
  }

  ghost function Nester(code: seq<int> -> int): Program {
    Script(CALLS, [], code)
  }

  // ----- what its runs look like

  lemma ShapeOfTail(c: seq<Request>, log: seq<Event>)
    requires c == CALLS && log == LOG
    ensures Shaped(c, log, 5, 1, 0, 3)
  {
    assert Shaped(c, log, 8, 4, 0, 0);
    ShapeOfByte(c, log, 7, 3, 0, 0);
    ShapeOfByte(c, log, 6, 2, 0, 1);
    ShapeOfByte(c, log, 5, 1, 0, 2);
  }

  lemma ShapeOfCalls(c: seq<Request>, log: seq<Event>)
    requires c == CALLS && log == LOG
    ensures Shaped(c, log, 0, 0, 0, 4)
  {
    ShapeOfTail(c, log);
    ShapeOfLeave(c, log, 4, 1, 0, 3);
    ShapeOfLeave(c, log, 3, 1, 1, 3);
    ShapeOfByte(c, log, 2, 0, 2, 3);
    ShapeOfEnter(c, log, 1, 0, 1, 4);
    ShapeOfEnter(c, log, 0, 0, 0, 4);
  }

  lemma ScanToNested(log: seq<Event>, lastByte: int)
    requires log == LOG
    ensures Scanned(log, 2, lastByte, [-1, -1], lastByte, [])
  {
    assert Scanned(log, 0, lastByte, [], lastByte, []);
    ScanStart(log, 0, lastByte, [], lastByte, [], [-1]);
    ScanStart(log, 1, lastByte, [-1], lastByte, [], [-1, -1]);
  }

  lemma ScanToInner(log: seq<Event>, lastByte: int)
    requires log == LOG && Scanned(log, 2, lastByte, [-1, -1], lastByte, [])
    ensures Scanned(log, 4, lastByte, [-1], 0, [INNER])
  {
    ScanRead(log, 2, lastByte, [-1, -1], lastByte, [], [-1, 0], 0);
    assert [-1] + [0] == [-1, 0] && [] + [INNER] == [INNER];
    ScanFinish(log, 3, lastByte, [-1], 0, 0, []);
  }

  lemma ScanToOuter(log: seq<Event>, lastByte: int)
    requires log == LOG && Scanned(log, 4, lastByte, [-1], 0, [INNER])
    ensures Scanned(log, 5, lastByte, [], 0, [INNER, OUTER])
  {
    assert [] + [-1] == [-1] && [INNER] + [OUTER] == [INNER, OUTER];
    ScanFinish(log, 4, lastByte, [], -1, 0, [INNER]);
  }

  lemma ScanToLast(log: seq<Event>, lastByte: int)
    requires log == LOG && Scanned(log, 5, lastByte, [], 0, [INNER, OUTER])
    ensures Scanned(log, 8, lastByte, [], 3, [INNER, OUTER])
  {
    ScanRead(log, 5, lastByte, [], 0, [INNER, OUTER], [], 1);
    ScanRead(log, 6, lastByte, [], 1, [INNER, OUTER], [], 2);
    ScanRead(log, 7, lastByte, [], 2, [INNER, OUTER], [], 3);
  }

  lemma StructureOfLog(log: seq<Event>, lastByte: int)
    requires log == LOG
    ensures CutsOfLog(log, lastByte) == [INNER, OUTER]
  {
    ScanToNested(log, lastByte);
    ScanToInner(log, lastByte);
    ScanToOuter(log, lastByte);
    ScanToLast(log, lastByte);
    assert log[..8] == log;
  }

  /** Logs without conversions leave the test as it is. */
  lemma {:induction false} NoConversion(st: Parser, log: seq<Event>)
    requires forall k :: 0 <= k < |log| ==> !log[k].Converting?
    ensures ConversionsFrom(st, log) == []
    decreases |log|
  {
    if log != [] {
      NoConversion(Feed(st, log[0]), log[1..]);
    }
  }

  /** The second call starts before the first has read. */
  lemma NotReadFirst(log: seq<Event>)
    requires log == LOG
    ensures !ReadsFirst(log)
  {
    assert Front(log[..1]) == [] && Last(log[..1]) == StartOneOf;
    assert Opens(log[..1]) == [0];
    assert log[1].StartOneOf? && !ReadIn(log, 0, 1);
  }

  /** The reduction of this harness, with exit code 1 as the criterion. */
  ghost predicate Given(setup: Setup) {
    && setup.Runs(Nester(Wanted)) && !setup.noStructure && setup.noStaticStructure
    && forall lines, exit :: setup.criterion(lines, exit) <==> exit == Exited(1)
  }

  lemma RunOnTest(code: seq<int> -> int, test: seq<byte>)
    ensures Execute(Nester(code), test).log == LOG
    ensures Execute(Nester(code), test).exit == Exited(code(Window(test, 0, 4)))
  {
    ShapeOfCalls(CALLS, LOG);
    assert CALLS[0..] == CALLS && LOG[0..] == LOG;
    RunScript(Nester(code), CALLS, [], code, test, 0, 0);
    assert [] + Window(test, 0, 4) == Window(test, 0, 4);
  }

  lemma LogOnTest(setup: Setup, test: seq<byte>)
    requires Given(setup)
    ensures setup.binary(test).log == LOG && setup.Cuts(test) == [INNER, OUTER] && setup.Tidy(test) == test
  {
    LogIs(setup, test);
    CutsOnTest(setup, test, LOG);
    TidyOnTest(setup, test, LOG);
  }

  lemma LogIs(setup: Setup, test: seq<byte>)
    requires Given(setup)
    ensures setup.binary(test).log == LOG
  {
    RunOnTest(Wanted, test);
    assert setup.binary(test) == Execute(Nester(Wanted), test);
  }

  lemma CutsOnTest(setup: Setup, test: seq<byte>, log: seq<Event>)
    requires !setup.noStructure && setup.noStaticStructure && setup.binary(test).log == log == LOG
    ensures setup.Cuts(test) == [INNER, OUTER]
  {
    StructureOfLog(log, |test| - 1);
  }

  lemma TidyOnTest(setup: Setup, test: seq<byte>, log: seq<Event>)
    requires setup.binary(test).log == log && forall k :: 0 <= k < |log| ==> !log[k].Converting?
    ensures setup.Tidy(test) == test
  {
    NoConversion(START, log);
  }

  /** Which tests satisfy the criterion. */
  lemma SatOnTest(setup: Setup, test: seq<byte>)
    requires Given(setup)
    ensures setup.Sat(test) <==> Hits(At(test, 0) as int, At(test, 1) as int, At(test, 2) as int, At(test, 3) as int)
  {
    RunOnTest(Wanted, test);
    assert setup.binary(test) == Execute(Nester(Wanted), test);
  }

  lemma OnlyShort(setup: Setup, test: seq<byte>)
    requires Given(setup) && |test| <= 3
    ensures setup.Sat(test) <==> test == SHORT
  {
    SatOnTest(setup, test);
  }

  // ----- the round

  /** No pass after the structured deletions changes the test. */
  ghost predicate Settles(setup: Setup, test: seq<byte>) {
    && setup.NoChunks(test) && setup.NoReduces(test) && (forall width :: setup.NoRange(test, width))
    && setup.NoSwap(test, setup.Cuts(test)) && setup.NoLower(test) && setup.NoPattern(test)
  }

  /** On this harness the outer cut of SHORT is accepted and makes it LONG.  No cut of
      LONG is, so the structured passes end with it.  The first chunk removal that is
      accepted makes it SHORT again, and no later pass changes that: the round ends
      where it began, and the reducer stops, at a test that is not minimal. */
  lemma StopsUnreduced(setup: Setup)
    requires Given(setup)
    ensures setup.Cuts(SHORT) == [INNER, OUTER] && setup.Tidy(SHORT) == SHORT && setup.Tidy(LONG) == LONG
    ensures setup.CutFails(SHORT, INNER) && CutOut(SHORT, OUTER) == LONG && setup.Sat(LONG)
    ensures setup.NoCut(LONG, setup.Cuts(LONG)) && setup.NoEdge(LONG, setup.Cuts(LONG))
    ensures !setup.Sat(ChunkOut(LONG, 0, 1)) && ChunkOut(LONG, 1, 1) == SHORT && setup.Sat(SHORT)
    ensures Settles(setup, SHORT)
    ensures forall width :: !setup.Minimal(SHORT, width)
    ensures !ReadsFirst(setup.binary(SHORT).log) && !setup.NeverGrows(SHORT)
  {
    LogOnTest(setup, SHORT);
    LogOnTest(setup, LONG);
    SatOnTest(setup, LONG);
    NotReadFirst(LOG);
    CutsOfShort(setup);
    CutsOfLong(setup, setup.Cuts(LONG));
    ShortSettles(setup);
    CanBeCut(setup, SHORT, OUTER, LONG);
  }

  lemma CanBeCut(setup: Setup, test: seq<byte>, c: Cut, next: seq<byte>)
    requires !setup.noStructure && c in setup.Cuts(test)
    requires setup.Sat(test) && CutOut(test, c) == next && |next| > |test| && setup.Sat(next)
    ensures (forall width :: !setup.Minimal(test, width)) && !setup.NeverGrows(test)
  {
    GrowsHere(setup, test, c);
  }

  lemma CutsOfShort(setup: Setup)
    requires Given(setup)
    ensures setup.CutFails(SHORT, INNER) && CutOut(SHORT, OUTER) == LONG
  {
    assert Upto(SHORT, -1) == [1, 2] && Past(SHORT, 1) == [2, 3] && Upto(SHORT, 0) == [];
    OnlyShort(setup, CutOut(SHORT, INNER));
  }

  lemma InnerOfLong()
    ensures CutOut(LONG, INNER) == [2, 2, 3] == EdgesOut(LONG, INNER) == ChunkOut(LONG, 0, 1)
    ensures ChunkOut(LONG, 1, 1) == SHORT
  {
    assert Upto(LONG, 0) == [] && Past(LONG, 1) == [2, 2, 3] && Slice(LONG, 1, 0) == [];
  }

  lemma OuterOfLong()
    ensures CutOut(LONG, OUTER) == [1, 2, 2, 2, 2, 3] == EdgesOut(LONG, OUTER)
  {
    assert Upto(LONG, -1) == [1, 2, 2] && Past(LONG, 1) == [2, 2, 3] && Slice(LONG, 0, 0) == [];
  }

  lemma CutsOfLong(setup: Setup, cuts: seq<Cut>)
    requires Given(setup) && cuts == [INNER, OUTER]
    ensures setup.NoCut(LONG, cuts) && setup.NoEdge(LONG, cuts)
    ensures !setup.Sat(ChunkOut(LONG, 0, 1)) && ChunkOut(LONG, 1, 1) == SHORT
  {
    InnerOfLong();
    OuterOfLong();
    OnlyShort(setup, [2, 2, 3]);
    SatOnTest(setup, [1, 2, 2, 2, 2, 3]);
  }

  lemma ShortSettles(setup: Setup)
    requires Given(setup)
    ensures Settles(setup, SHORT) && setup.Sat(SHORT)
  {
    LogOnTest(setup, SHORT);
    forall test: seq<byte> | |test| <= 3
      ensures setup.Sat(test) <==> test == SHORT
    {
      OnlyShort(setup, test);
    }
    NothingElse(setup, SHORT, setup.Cuts(SHORT));
  }

  lemma NothingElse(setup: Setup, test: seq<byte>, cuts: seq<Cut>)
    requires |test| == 3 && forall t: seq<byte> :: |t| <= 3 ==> (setup.Sat(t) <==> t == test)
    requires cuts == setup.Cuts(test) == [INNER, OUTER]
    ensures Settles(setup, test)
  {
    NoChunkShorter(setup, test, 1);
    NoChunkShorter(setup, test, 4);
    NoChunkShorter(setup, test, 8);
    forall width
      ensures setup.NoRange(test, width)
    {
      NoRangeShorter(setup, test, width);
    }
    assert !CanSwap(test, cuts[0], cuts[1]);
    forall b: nat | b < |test|
      ensures setup.NoLowerAt(test, b, 256)
    {
      forall v: byte | v < test[b]
        ensures !setup.Sat(LowerByte(test, b, v))
      {
        assert LowerByte(test, b, v)[b] != test[b];
      }
    }
  }

  // ----- nesting first need not matter

  /** A call that nests before it reads, and reads later. */
  const LATER: seq<Event> := [StartOneOf, StartOneOf, ReadByte(0), FinishOneOf, ReadByte(1), FinishOneOf]

  /** Its cuts start inside all the same: what matters is where cuts start, not whether
      calls read first. */
  lemma LaterStartsInside(log: seq<Event>, lastByte: int)
    requires log == LATER
    ensures !ReadsFirst(log) && CutsOfLog(log, lastByte) == [(0, 0), (1, 1)]
  {
    assert Front(log[..1]) == [] && Last(log[..1]) == StartOneOf;
    assert Opens(log[..1]) == [0];
    assert log[1].StartOneOf? && !ReadIn(log, 0, 1);
    LaterBegins(log, lastByte);
    LaterEnds(log, lastByte);
    assert log[..6] == log;
  }

  lemma LaterBegins(log: seq<Event>, lastByte: int)
    requires log == LATER
    ensures Scanned(log, 3, lastByte, [-1, 0], 0, [])
  {
    assert Scanned(log, 0, lastByte, [], lastByte, []);
    ScanStart(log, 0, lastByte, [], lastByte, [], [-1]);
    ScanStart(log, 1, lastByte, [-1], lastByte, [], [-1, -1]);
    ScanRead(log, 2, lastByte, [-1, -1], lastByte, [], [-1, 0], 0);
  }

  lemma LaterEnds(log: seq<Event>, lastByte: int)
    requires log == LATER && Scanned(log, 3, lastByte, [-1, 0], 0, [])
    ensures Scanned(log, 6, lastByte, [], 1, [(0, 0), (1, 1)])
  {
    assert [-1] + [0] == [-1, 0] && [] + [(0, 0)] == [(0, 0)];
    ScanFinish(log, 3, lastByte, [-1], 0, 0, []);
    ScanRead(log, 4, lastByte, [-1], 0, [(0, 0)], [1], 1);
    assert [] + [1] == [1] && [(0, 0)] + [(1, 1)] == [(0, 0), (1, 1)];
    ScanFinish(log, 5, lastByte, [], 1, 1, [(0, 0)]);
  }

  /** There are such settings. */
  lemma NesterCanBeReduced() returns (setup: Setup)
    ensures Given(setup) && setup.deadline.Some?
  {
    setup := Setup(test => Execute(Nester(Wanted), test), (_: seq<string>, exit) => exit == Exited(1),
                   false, true, false, false, false, false, false, 4096, Some(1000));
  }
}
