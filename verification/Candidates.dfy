/** The candidates that the reducer's passes try, in the terms of Python slices, and
    what makes each of them smaller than the test it comes from. */
module Candidates {
  import opened Words
  import opened Programs
  import opened RangeRewrite
  import opened Structure

  // ----- Python slices

  function Clip(n: nat, i: int): nat {
    if i < 0 then (if i + n < 0 then 0 else i + n) else if i > n then n else i
  }

  /** test[lo:hi] */
  function Slice(test: seq<byte>, lo: int, hi: int): seq<byte> {
    var (a, b) := (Clip(|test|, lo), Clip(|test|, hi));
    if a <= b then test[a..b] else []
  }

  /** test[:hi] */
  function Upto(test: seq<byte>, hi: int): seq<byte> {
    Slice(test, 0, hi)
  }

  /** test[lo:] */
  function Past(test: seq<byte>, lo: int): seq<byte> {
    Slice(test, lo, |test|)
  }

  /** a > b on byte strings. */
  predicate Greater(a: seq<byte>, b: seq<byte>) {
    if a == [] then false
    else if b == [] then true
    else if a[0] != b[0] then a[0] > b[0]
    else Greater(a[1..], b[1..])
  }

  // ----- candidates

  function CutOut(test: seq<byte>, c: Cut): seq<byte> {
    Upto(test, c.0) + Past(test, c.1 + 1)
  }

  function EdgesOut(test: seq<byte>, c: Cut): seq<byte> {
    Upto(test, c.0) + Slice(test, c.0 + 1, c.1) + Past(test, c.1 + 1)
  }

  function ChunkOut(test: seq<byte>, b: nat, k: nat): seq<byte>
    requires b < |test|
  {
    test[..b] + Past(test, b + k)
  }

  function ReduceAndDelete(test: seq<byte>, b: nat, k: nat): seq<byte>
    requires b + k < |test| && test[b] > 0
  {
    test[..b] + [test[b] - 1] + test[b + k + 1..]
  }

  function RangeOut(test: seq<byte>, b: nat, v: nat): seq<byte>
    requires b < v < |test|
  {
    test[..b] + test[v..]
  }

  predicate CanSwap(test: seq<byte>, ci: Cut, cj: Cut) {
    && cj.0 > ci.1 && Slice(test, cj.0, cj.1 + 1) != []
    && Greater(Slice(test, ci.0, ci.1 + 1), Slice(test, cj.0, cj.1 + 1))
  }

  function Swap(test: seq<byte>, ci: Cut, cj: Cut): seq<byte> {
    Upto(test, ci.0) + Slice(test, cj.0, cj.1 + 1) + Slice(test, ci.1 + 1, cj.0)
      + Slice(test, ci.0, ci.1 + 1) + Past(test, cj.1 + 1)
  }

  function LowerByte(test: seq<byte>, b: nat, v: byte): seq<byte>
    requires b < |test|
  {
    test[b := v]
  }

  predicate IsPattern(test: seq<byte>, b1: nat, b2: nat) {
    b1 + 2 <= b2 < |test| - 4 && test[b1] == test[b2] && test[b1 + 1] == test[b2 + 1]
  }

  /** The replacements for the pair (x, y), in the order they are tried. */
  function Replacements(x: byte, y: byte): seq<seq<byte>> {
    [[x], [y]]
      + (if x > 0 then seq<seq<byte>>(x as int, v requires 0 <= v < x as int => [v, y]) + [[x - 1]] else [])
      + (if y > 0 then seq<seq<byte>>(y as int, v requires 0 <= v < y as int => [x, v]) else [])
  }

  function ChangePattern(test: seq<byte>, b1: nat, b2: nat, pair: seq<byte>): seq<byte>
    requires IsPattern(test, b1, b2)
  {
    test[..b1] + pair + test[b1 + 2..b2] + pair + test[b2 + 2..]
  }

  // ----- the setting of a reduction

  /** The binary under test, the criterion and the command-line options.  `deadline`
      is the number of candidate runs the time limit admits, if there is a limit. */
  datatype Setup = Setup(
    binary: seq<byte> -> Run,
    criterion: (seq<string>, Exit) -> bool,
    noStructure: bool,
    noStaticStructure: bool,
    fast: bool,
    slow: bool,
    slowest: bool,
    noPad: bool,
    search: bool,
    maxByteRange: int,
    deadline: Option<nat>)
  {
    predicate Checks(r: Run) {
      criterion(r.output, r.exit)
    }

    predicate Sat(test: seq<byte>) {
      Checks(binary(test))
    }

    /** The binary runs one deterministic harness. */
    ghost predicate Runs(program: Program) {
      forall test :: binary(test) == Execute(program, test)
    }

    /** The test after the unchecked rewrite. */
    function Tidy(test: seq<byte>): (tidy: seq<byte>)
      ensures |tidy| == |test|
    {
      if noStructure then test else Fix(test, Conversions(binary(test).log))
    }

    /** The time limit admits `runs` candidate runs. */
    predicate Admits(runs: nat) {
      deadline.None? || runs <= deadline.value
    }

    function CutsOfRun(r: Run, lastByte: int, test: seq<byte>): seq<Cut> {
      (if noStructure then [] else CutsOfLog(r.log, lastByte)) + (if noStaticStructure then [] else Delims(test))
    }

    function Cuts(test: seq<byte>): seq<Cut> {
      CutsOfRun(binary(test), |test| - 1, test)
    }

    function LastReadOf(test: seq<byte>): int {
      if noStructure then |test| - 1 else ScanLog(binary(test).log, |test| - 1).lastRead
    }

    // ----- no candidate of a pass satisfies the criterion

    /** A candidate of the same length is not tried. */
    ghost predicate CutFails(test: seq<byte>, c: Cut) {
      |CutOut(test, c)| == |test| || !Sat(CutOut(test, c))
    }

    ghost predicate NoCut(test: seq<byte>, cuts: seq<Cut>) {
      forall c :: c in cuts ==> CutFails(test, c)
    }

    ghost predicate EdgeFails(test: seq<byte>, c: Cut) {
      |EdgesOut(test, c)| == |test| || !Sat(EdgesOut(test, c))
    }

    ghost predicate NoEdge(test: seq<byte>, cuts: seq<Cut>) {
      forall c :: c in cuts ==> EdgeFails(test, c)
    }

    /** Chunks that start between `lo` and `hi`. */
    ghost predicate NoChunkFrom(test: seq<byte>, k: nat, lo: nat, hi: nat) {
      forall b: nat :: b < |test| && lo <= b < hi ==> !Sat(ChunkOut(test, b, k))
    }

    ghost predicate NoChunk(test: seq<byte>, k: nat) {
      NoChunkFrom(test, k, 0, |test|)
    }

    ghost predicate NoReduce(test: seq<byte>, k: nat) {
      forall b: nat :: b + k < |test| && test[b] > 0 ==> !Sat(ReduceAndDelete(test, b, k))
    }

    /** Ranges that start at `b` and end before `upto`. */
    ghost predicate NoRangeFrom(test: seq<byte>, b: nat, width: int, upto: int) {
      forall v: nat :: b + 2 <= v < |test| && v < upto && v < b + width && v - b != 4 && v - b != 8
        ==> !Sat(RangeOut(test, b, v))
    }

    ghost predicate NoRange(test: seq<byte>, width: int) {
      forall b: nat :: b < |test| ==> NoRangeFrom(test, b, width, |test|)
    }

    ghost predicate SwapFails(test: seq<byte>, ci: Cut, cj: Cut) {
      CanSwap(test, ci, cj) ==> !Sat(Swap(test, ci, cj))
    }

    ghost predicate NoSwapWith(test: seq<byte>, cuts: seq<Cut>, i: nat, upto: nat)
      requires i < |cuts|
    {
      forall j :: i < j < |cuts| && j < upto ==> SwapFails(test, cuts[i], cuts[j])
    }

    ghost predicate NoSwap(test: seq<byte>, cuts: seq<Cut>) {
      forall i: nat :: i < |cuts| ==> NoSwapWith(test, cuts, i, |cuts|)
    }

    ghost predicate NoLowerAt(test: seq<byte>, b: nat, upto: int)
      requires b < |test|
    {
      forall v: byte :: v < test[b] && v < upto ==> !Sat(LowerByte(test, b, v))
    }

    ghost predicate NoLower(test: seq<byte>) {
      forall b: nat :: b < |test| ==> NoLowerAt(test, b, 256)
    }

    ghost predicate NoPattern(test: seq<byte>) {
      forall b1: nat, b2: nat, w :: IsPattern(test, b1, b2) && w in Replacements(test[b1], test[b1 + 1])
        ==> !Sat(ChangePattern(test, b1, b2, w))
    }

    ghost predicate NoStructureDeletion(test: seq<byte>) {
      !noStructure ==> NoCut(test, Cuts(test)) && NoEdge(test, Cuts(test))
    }

    ghost predicate NoChunks(test: seq<byte>) {
      NoChunk(test, 1) && NoChunk(test, 4) && NoChunk(test, 8)
    }

    ghost predicate NoReduces(test: seq<byte>) {
      NoReduce(test, 1) && NoReduce(test, 4) && NoReduce(test, 8)
    }

    ghost predicate NoDeletion(test: seq<byte>) {
      NoStructureDeletion(test) && NoChunks(test) && NoReduces(test)
    }

    ghost predicate NoReordering(test: seq<byte>, width: int) {
      && (!fast ==> NoRange(test, width))
      && (!noStructure ==> NoSwap(test, Cuts(test)))
      && NoLower(test)
    }

    /** No candidate of any enabled pass satisfies the criterion. */
    ghost predicate Minimal(test: seq<byte>, width: int) {
      NoDeletion(test) && NoReordering(test, width) && (slow || slowest ==> NoPattern(test))
    }

    /** A cut in hand comes from a satisfying run, for the test that ran or for what the
        first truncation leaves of it. */
    ghost predicate InHand(ran: seq<byte>, test: seq<byte>, c: Cut) {
      Sat(ran) && (test == ran || test == Shorten(this, ran)) && c in CutsOfRun(binary(ran), |ran| - 1, test)
    }

    /** A structured deletion that makes the test longer, and would be accepted. */
    ghost predicate Grows(ran: seq<byte>, test: seq<byte>, c: Cut) {
      && InHand(ran, test, c)
      && ((|CutOut(test, c)| > |test| && Sat(CutOut(test, c)))
          || (|EdgesOut(test, c)| > |test| && Sat(EdgesOut(test, c))))
    }

    /** No test up to the weight of `bound` can grow. */
    ghost predicate NeverGrows(bound: seq<byte>) {
      !noStructure ==> forall ran, test, c :: NotHeavier(test, bound) ==> !Grows(ran, test, c)
    }

    /** None can grow, and a swap that would be accepted lowers the test. */
    ghost predicate Regular(bound: seq<byte>) {
      && NeverGrows(bound)
      && (!noStructure ==> forall ran, test, ci, cj ::
            Swaps(ran, test, ci, cj) && NotHeavier(test, bound) ==> Lowers(Swap(test, ci, cj), test))
    }

    /** A swap that would be accepted. */
    ghost predicate Swaps(ran: seq<byte>, test: seq<byte>, ci: Cut, cj: Cut) {
      InHand(ran, test, ci) && InHand(ran, test, cj) && CanSwap(test, ci, cj) && Sat(Swap(test, ci, cj))
    }

    /** No OneOf call of this run starts at -1, for want of a read of its own. */
    ghost predicate StartsInside(test: seq<byte>) {
      noStructure || forall c :: c in CutsOfLog(binary(test).log, |test| - 1) ==> c.0 >= 0
    }

    /** Dropping the bytes after the last read leaves the structure as it is: calls end
        after a read, so that none takes the end of the test for its own. */
    ghost predicate StructureKept(test: seq<byte>) {
      noStructure || LastReadOf(test) + 1 >= |test| || EndsAfterRead(binary(test).log)
    }

    /** Dropping the bytes after the last ordinary read cannot matter: no odd one of
        them is read as a boolean. */
    ghost predicate KeptByTruncation(test: seq<byte>) {
      var n := ScanLog(binary(test).log, |test| - 1).lastRead + 1;
      noStructure || n < 0 || LateBoolsEven(binary(test).log, test, n)
    }
  }

  // ----- smaller tests

  /** Shorter, or as long and a smaller big-endian number. */
  predicate Lowers(a: seq<byte>, b: seq<byte>) {
    |a| < |b| || (|a| == |b| && BigEndian(a) < BigEndian(b))
  }

  predicate LowersOrSame(a: seq<byte>, b: seq<byte>) {
    a == b || Lowers(a, b)
  }

  function Sum(s: seq<byte>): nat {
    if s == [] then 0 else s[0] as nat + Sum(s[1..])
  }

  /** Shorter, or as long and with a smaller sum of bytes.  Unlike the order of the
      numbers, no swap goes up in this one. */
  predicate Lighter(a: seq<byte>, b: seq<byte>) {
    |a| < |b| || (|a| == |b| && Sum(a) < Sum(b))
  }

  predicate NotHeavier(a: seq<byte>, b: seq<byte>) {
    |a| < |b| || (|a| == |b| && Sum(a) <= Sum(b))
  }

  predicate SameOrLighter(a: seq<byte>, b: seq<byte>) {
    a == b || Lighter(a, b)
  }

  lemma {:induction false} SumConcat(a: seq<byte>, b: seq<byte>)
    ensures Sum(a + b) == Sum(a) + Sum(b)
  {
    if a == [] {
      assert a + b == b;
    } else {
      assert (a + b)[1..] == a[1..] + b;
      SumConcat(a[1..], b);
    }
  }

  lemma SumOfThree(a: seq<byte>, b: seq<byte>, c: seq<byte>)
    ensures Sum(a + b + c) == Sum(a) + Sum(b) + Sum(c)
  {
    SumConcat(a + b, c);
    SumConcat(a, b);
  }

  lemma SumOfFive(a: seq<byte>, b: seq<byte>, c: seq<byte>, d: seq<byte>, e: seq<byte>)
    ensures Sum(a + b + c + d + e) == Sum(a) + Sum(b) + Sum(c) + Sum(d) + Sum(e)
  {
    SumOfThree(a + b + c, d, e);
    SumOfThree(a, b, c);
  }

  predicate Proper(c: Cut) {
    0 <= c.0 <= c.1 + 1 && c.1 >= 0
  }

  /** What the cuts of a run look like: proper, or starting at -1. */
  predicate Bounded(c: Cut) {
    (c.0 == -1 && c.1 >= -1) || Proper(c)
  }

  /** A structured deletion lengthens a test exactly when the stretch starts at -1,
      which Python takes for the last byte, and stops two bytes before the end. */
  lemma CutLengthensExactly(test: seq<byte>, c: Cut)
    requires Bounded(c)
    ensures |CutOut(test, c)| > |test| <==> c.0 == -1 && c.1 + 2 < |test|
  {
  }

  /** Without its edges, such a stretch lengthens every test of three bytes, and one of
      two bytes if it does not stop inside. */
  lemma EdgesLengthenExactly(test: seq<byte>, c: Cut)
    requires Bounded(c)
    ensures |EdgesOut(test, c)| > |test| <==> c.0 == -1 && |test| > if 0 <= c.1 < |test| then 2 else 1
  {
  }

  lemma ByteLowers(test: seq<byte>, b: nat, v: byte)
    requires b < |test| && v < test[b]
    ensures Lowers(LowerByte(test, b, v), test) && Lighter(LowerByte(test, b, v), test)
  {
    BigEndianOrder(test[b := v], test, b);
    SumOfThree(test[..b], [v], test[b + 1..]);
    SumOfThree(test[..b], [test[b]], test[b + 1..]);
    assert test[b := v] == test[..b] + [v] + test[b + 1..] && test == test[..b] + [test[b]] + test[b + 1..];
  }

  lemma PatternLowers(test: seq<byte>, b1: nat, b2: nat, w: seq<byte>)
    requires IsPattern(test, b1, b2) && w in Replacements(test[b1], test[b1 + 1])
    ensures Lowers(ChangePattern(test, b1, b2, w), test) && Lighter(ChangePattern(test, b1, b2, w), test)
  {
    PatternBelow(test, b1, b2, w);
    PatternLighter(test, b1, b2, w);
  }

  lemma PatternLighter(test: seq<byte>, b1: nat, b2: nat, w: seq<byte>)
    requires IsPattern(test, b1, b2) && w in Replacements(test[b1], test[b1 + 1])
    ensures Lighter(ChangePattern(test, b1, b2, w), test)
  {
    var x, y := test[b1], test[b1 + 1];
    ReplacementShape(x, y, w);
    if |w| == 2 {
      var pre, mid, post := test[..b1], test[b1 + 2..b2], test[b2 + 2..];
      SumOfFive(pre, w, mid, w, post);
      SumOfFive(pre, [x, y], mid, [x, y], post);
      assert test == pre + [x, y] + mid + [x, y] + post;
      SumOfPair(w);
      SumOfPair([x, y]);
    }
  }

  lemma SumOfPair(w: seq<byte>)
    requires |w| == 2
    ensures Sum(w) == w[0] as nat + w[1] as nat
  {
    assert w[1..][1..] == [] && Sum(w[1..]) == w[1] as nat;
  }

  lemma PatternBelow(test: seq<byte>, b1: nat, b2: nat, w: seq<byte>)
    requires IsPattern(test, b1, b2) && w in Replacements(test[b1], test[b1 + 1])
    ensures Lowers(ChangePattern(test, b1, b2, w), test)
  {
    var x, y := test[b1], test[b1 + 1];
    var next := ChangePattern(test, b1, b2, w);
    ReplacementShape(x, y, w);
    if |w| == 2 {
      var k := if w[0] < x then b1 else b1 + 1;
      assert next[..k] == test[..k];
      BigEndianOrder(next, test, k);
    }
  }

  lemma ReplacementShape(x: byte, y: byte, w: seq<byte>)
    requires w in Replacements(x, y)
    ensures |w| == 1 || (|w| == 2 && ((w[0] < x && w[1] == y) || (w[0] == x && w[1] < y)))
  {
  }

  lemma {:induction false} SumOfZeros(n: nat)
    ensures Sum(seq<byte>(n, _ => 0)) == 0
  {
    if n > 0 {
      assert seq<byte>(n, _ => 0)[1..] == seq<byte>(n - 1, _ => 0);
      SumOfZeros(n - 1);
    }
  }

  lemma FixOneLighter(tape: seq<byte>, s: Site)
    ensures SameOrLighter(FixOne(tape, s), tape)
  {
    if Applies(tape, s) {
      var pre, read, last, post := tape[..s.first], tape[s.first..s.last], tape[s.last], tape[s.last + 1..];
      var zeros := seq<byte>(s.last - s.first, _ => 0);
      SumOfZeros(s.last - s.first);
      SumOfFour(pre, zeros, [s.value], post);
      SumOfFour(pre, read, [last], post);
      assert tape == pre + read + [last] + post;
    }
  }

  lemma SumOfFour(a: seq<byte>, b: seq<byte>, c: seq<byte>, d: seq<byte>)
    ensures Sum(a + b + c + d) == Sum(a) + Sum(b) + Sum(c) + Sum(d)
  {
    SumConcat(a + b + c, d);
    SumOfThree(a, b, c);
  }

  lemma {:induction false} FixLighter(tape: seq<byte>, sites: seq<Site>)
    ensures SameOrLighter(Fix(tape, sites), tape)
    decreases |sites|
  {
    if sites != [] && sites[0].last < |tape| {
      FixOneLighter(tape, sites[0]);
      FixLighter(FixOne(tape, sites[0]), sites[1..]);
    }
  }

  /** Rewriting a satisfying test keeps it satisfying and its structure, and never
      makes it larger or heavier; a second rewrite would change nothing. */
  lemma TidyIsSafe(setup: Setup, program: Program, test: seq<byte>)
    requires setup.Runs(program)
    ensures var tidy := setup.Tidy(test);
      && (setup.Sat(tidy) <==> setup.Sat(test))
      && setup.Tidy(tidy) == tidy
      && LowersOrSame(tidy, test) && SameOrLighter(tidy, test)
      && setup.Cuts(tidy) == setup.CutsOfRun(setup.binary(test), |test| - 1, tidy)
      && setup.LastReadOf(tidy) == setup.LastReadOf(test)
  {
    assert setup.binary(test) == Execute(program, test);
    var tidy := setup.Tidy(test);
    assert setup.binary(tidy) == Execute(program, tidy);
    if !setup.noStructure {
      FixLighter(test, Conversions(setup.binary(test).log));
      RewritePreservesMeaning(program, test);
      TraceKeepsStructure(setup.binary(test).log, |test| - 1);
      TraceKeepsStructure(setup.binary(tidy).log, |test| - 1);
    }
  }

  /** The test without the bytes after its last read. */
  function Shorten(setup: Setup, test: seq<byte>): seq<byte> {
    var n := setup.LastReadOf(test) + 1;
    if n < |test| then Upto(test, n) else test
  }

  lemma ShortenIs(setup: Setup, test: seq<byte>, last: int)
    requires last == setup.LastReadOf(test)
    ensures Shorten(setup, test) == if last + 1 < |test| then Upto(test, last + 1) else test
  {
  }

  /** Nothing is lost by the first truncation. */
  ghost predicate Keeps(setup: Setup, test: seq<byte>) {
    setup.KeptByTruncation(test) && setup.StructureKept(test)
  }

  /** The result is the first test after its truncation, which dropped an odd boolean. */
  ghost predicate BoolsDropped(setup: Setup, test: seq<byte>, core: seq<byte>) {
    !setup.KeptByTruncation(setup.Tidy(test)) && core == Shorten(setup, setup.Tidy(test))
  }

  /** The result is the first test after its truncation, which lost something. */
  ghost predicate StillTruncated(setup: Setup, test: seq<byte>, core: seq<byte>) {
    !Keeps(setup, setup.Tidy(test)) && core == Shorten(setup, setup.Tidy(test))
  }

  lemma {:induction false} SomeRead(log: seq<Event>, lastByte: int)
    requires LastRead(log, lastByte) != lastByte
    ensures ReadIn(log, -1, |log|) && LastRead(log, lastByte) >= 0
  {
    if log[|log| - 1].ReadByte? {
    } else {
      SomeRead(log[..|log| - 1], lastByte);
      var j :| -1 < j < |log| - 1 && log[..|log| - 1][j].ReadByte?;
      assert log[j].ReadByte?;
    }
  }

  /** When no odd boolean is dropped, the shortened test still satisfies the
      criterion; its structure is that of the whole test exactly when calls end after
      a read. */
  lemma TruncationIsSafe(setup: Setup, program: Program, test: seq<byte>)
    requires setup.Runs(program)
    ensures LowersOrSame(Shorten(setup, test), test) && SameOrLighter(Shorten(setup, test), test)
    ensures setup.KeptByTruncation(test) ==>
      var short := Shorten(setup, test);
      && (setup.Sat(short) <==> setup.Sat(test))
      && setup.LastReadOf(short) == setup.LastReadOf(test)
      && (setup.Cuts(short) == setup.CutsOfRun(setup.binary(test), |test| - 1, short) <==> setup.StructureKept(test))
  {
    var short := Shorten(setup, test);
    LastReadBound(setup, program, test);
    if short != test && setup.KeptByTruncation(test) {
      ShortRuns(setup, program, test, short);
      SameStructure(setup, setup.binary(test), test, short);
    }
  }

  lemma LastReadBound(setup: Setup, program: Program, test: seq<byte>)
    requires setup.Runs(program)
    ensures setup.LastReadOf(test) >= -1
  {
    assert setup.binary(test) == Execute(program, test);
    ExecuteIncreasing(program, test);
    ScanIsBounded(setup.binary(test).log, |test| - 1);
  }

  lemma ShortRuns(setup: Setup, program: Program, test: seq<byte>, short: seq<byte>)
    requires setup.Runs(program) && short == Shorten(setup, test) && short != test && setup.KeptByTruncation(test)
    ensures !setup.noStructure && setup.binary(short) == setup.binary(test)
    ensures ReadIn(setup.binary(test).log, -1, |setup.binary(test).log|)
  {
    var r := setup.binary(test);
    assert r == Execute(program, test) && setup.binary(short) == Execute(program, short);
    ScanLastRead(r.log, |test| - 1);
    SomeRead(r.log, |test| - 1);
    var n := setup.LastReadOf(test) + 1;
    assert short == test[..n];
    TruncationExact(program, test, n);
  }

  lemma SameStructure(setup: Setup, r: Run, test: seq<byte>, short: seq<byte>)
    requires !setup.noStructure && r == setup.binary(test) && setup.binary(short) == r && |short| < |test|
    requires ReadIn(r.log, -1, |r.log|)
    ensures setup.Cuts(short) == setup.CutsOfRun(r, |test| - 1, short) <==> EndsAfterRead(r.log)
    ensures setup.LastReadOf(short) == setup.LastReadOf(test)
  {
    DefaultUnused(r.log, |test| - 1, |short| - 1);
    var x, y := CutsOfLog(r.log, |short| - 1), CutsOfLog(r.log, |test| - 1);
    var delims := if setup.noStaticStructure then [] else Delims(short);
    assert (x + delims)[..|x|] == x && (y + delims)[..|y|] == y;
  }

  /** The cuts that a run leaves in hand are proper or start at -1. */
  lemma CutsAreBounded(setup: Setup, program: Program, test: seq<byte>, other: seq<byte>, c: Cut)
    requires setup.Runs(program) && c in setup.CutsOfRun(setup.binary(test), |test| - 1, other)
    ensures Bounded(c)
    ensures setup.StartsInside(test) ==> Proper(c)
  {
    assert setup.binary(test) == Execute(program, test);
    if !setup.noStructure && c in CutsOfLog(setup.binary(test).log, |test| - 1) {
      RunCutsAreEdged(program, test, |test| - 1, c);
    } else {
      DelimOf(DELIM_PAIRS, other, 0, 0, |other| - 1, c);
    }
  }

  // ----- harnesses whose tests cannot grow

  /** Calls that read before they nest start inside. */
  lemma ReadingFirstStartsInside(setup: Setup, program: Program, test: seq<byte>)
    requires setup.Runs(program) && ReadsFirst(setup.binary(test).log)
    ensures setup.StartsInside(test)
  {
    assert setup.binary(test) == Execute(program, test);
    forall c | c in CutsOfLog(setup.binary(test).log, |test| - 1)
      ensures c.0 >= 0
    {
      RunCutsAreProper(program, test, |test| - 1, c);
    }
  }

  /** And where calls start inside, the truncation keeps the structure. */
  lemma InsideIsKept(setup: Setup, program: Program, test: seq<byte>)
    requires setup.Runs(program) && setup.StartsInside(test)
    ensures setup.StructureKept(test)
  {
    if !setup.noStructure {
      assert setup.binary(test) == Execute(program, test);
      ExecuteIncreasing(program, test);
      InsideEnds(setup.binary(test).log, |test| - 1);
    }
  }

  /** If calls start inside on the tests that satisfy the criterion, none can grow. */
  lemma InsideNeverGrows(setup: Setup, program: Program, bound: seq<byte>)
    requires setup.Runs(program) && forall test :: setup.Sat(test) ==> setup.StartsInside(test)
    ensures setup.NeverGrows(bound)
  {
    forall ran, test, c | setup.InHand(ran, test, c)
      ensures !setup.Grows(ran, test, c)
    {
      CutsAreBounded(setup, program, ran, test, c);
      CutLengthensExactly(test, c);
      EdgesLengthenExactly(test, c);
    }
  }

  /** A satisfying test that a stretch from -1 lengthens, with an unread last byte. */
  ghost predicate Growing(setup: Setup, test: seq<byte>, c: Cut) {
    && !setup.noStructure && setup.Sat(test) && c in setup.Cuts(test)
    && c.0 == -1 && c.1 + 2 < |test| && setup.binary(test).index < |test|
  }

  /** The cut of such a test is always accepted, and leaves a longer one of the kind:
      no such test is minimal, whatever the harness. */
  lemma CutGrows(setup: Setup, program: Program, test: seq<byte>, c: Cut)
    requires setup.Runs(program) && Growing(setup, test, c)
    ensures !setup.NoCut(test, setup.Cuts(test)) && !setup.NeverGrows(test)
    ensures var next := setup.Tidy(CutOut(test, c)); |next| > |test| && Growing(setup, next, c)
  {
    CutsAreBounded(setup, program, test, test, c);
    CutLengthensExactly(test, c);
    var cut := CutOut(test, c);
    LongerRunsAlike(setup, program, test, c, cut);
    GrowsHere(setup, test, c);
    var next := setup.Tidy(cut);
    TidyRuns(setup, program, setup.binary(test), cut, next);
    GrowingNext(setup, setup.binary(test), test, c, next);
  }

  lemma GrowsHere(setup: Setup, test: seq<byte>, c: Cut)
    requires !setup.noStructure && setup.Sat(test) && c in setup.Cuts(test)
    requires setup.Sat(CutOut(test, c)) && |CutOut(test, c)| > |test|
    ensures !setup.NoCut(test, setup.Cuts(test)) && !setup.NeverGrows(test)
  {
    assert !setup.CutFails(test, c);
    assert setup.Grows(test, test, c);
  }

  lemma TidyRuns(setup: Setup, program: Program, r: Run, cut: seq<byte>, next: seq<byte>)
    requires setup.Runs(program) && next == setup.Tidy(cut) && r == setup.binary(cut)
    ensures |next| == |cut| && (setup.Sat(next) <==> setup.Checks(r)) && setup.binary(next).index == r.index
    ensures setup.Cuts(next) == setup.CutsOfRun(r, |next| - 1, next)
  {
    TidyIsSafe(setup, program, cut);
    SameIndex(setup, program, cut);
  }

  lemma GrowingNext(setup: Setup, r: Run, test: seq<byte>, c: Cut, next: seq<byte>)
    requires Growing(setup, test, c) && r == setup.binary(test) && |next| > |test| && setup.Sat(next)
    requires setup.binary(next).index == r.index && setup.Cuts(next) == setup.CutsOfRun(r, |next| - 1, next)
    ensures Growing(setup, next, c)
  {
    StretchStays(setup, r, test, c, |next| - 1, next);
  }

  lemma StretchStays(setup: Setup, r: Run, test: seq<byte>, c: Cut, lastByte: int, next: seq<byte>)
    requires r == setup.binary(test) && Growing(setup, test, c)
    ensures c in setup.CutsOfRun(r, lastByte, next)
  {
    CutIsDynamic(setup, test, c);
    CutStays(r.log, |test| - 1, lastByte, c);
  }

  /** The lengthened test begins with the bytes that are read. */
  lemma LongerRunsAlike(setup: Setup, program: Program, test: seq<byte>, c: Cut, cut: seq<byte>)
    requires setup.Runs(program) && Growing(setup, test, c) && cut == CutOut(test, c) && c.1 >= -1
    ensures setup.binary(cut) == setup.binary(test)
  {
    assert setup.binary(cut) == Execute(program, cut) && setup.binary(test) == Execute(program, test);
    assert forall k :: 0 <= k < |test| - 1 ==> cut[k] == test[k];
    SameBytesSameRun(program, test, cut);
  }

  lemma SameIndex(setup: Setup, program: Program, test: seq<byte>)
    requires setup.Runs(program)
    ensures setup.binary(setup.Tidy(test)).index == setup.binary(test).index
  {
    assert setup.binary(test) == Execute(program, test);
    assert setup.binary(setup.Tidy(test)) == Execute(program, setup.Tidy(test));
    if !setup.noStructure {
      RewritePreservesMeaning(program, test);
    }
  }

  /** A cut that starts at -1 comes from a call. */
  lemma CutIsDynamic(setup: Setup, test: seq<byte>, c: Cut)
    requires !setup.noStructure && c in setup.Cuts(test) && c.0 == -1
    ensures c in CutsOfLog(setup.binary(test).log, |test| - 1)
  {
    if c !in CutsOfLog(setup.binary(test).log, |test| - 1) {
      DelimOf(DELIM_PAIRS, test, 0, 0, |test| - 1, c);
    }
  }

  // ----- when nothing shorter satisfies the criterion

  lemma NoChunkShorter(setup: Setup, test: seq<byte>, k: nat)
    requires k > 0 && forall t: seq<byte> :: |t| < |test| ==> !setup.Sat(t)
    ensures setup.NoChunk(test, k) && setup.NoReduce(test, k)
  {
  }

  lemma NoRangeShorter(setup: Setup, test: seq<byte>, width: int)
    requires forall t: seq<byte> :: |t| < |test| ==> !setup.Sat(t)
    ensures setup.NoRange(test, width)
  {
    forall b: nat | b < |test|
      ensures setup.NoRangeFrom(test, b, width, |test|)
    {
    }
  }

  // ----- swaps

  ghost predicate IsPrefix(a: seq<byte>, b: seq<byte>) {
    |a| <= |b| && b[..|a|] == a
  }

  /** Where two strings first differ, if neither is a prefix of the other. */
  lemma {:induction false} GreaterAt(a: seq<byte>, b: seq<byte>) returns (k: nat)
    requires Greater(a, b)
    ensures k <= |b| && k < |a| && a[..k] == b[..k]
    ensures k == |b| || b[k] < a[k]
    ensures k == |b| <==> IsPrefix(b, a)
  {
    if b == [] {
      k := 0;
    } else if a[0] != b[0] {
      k := 0;
    } else {
      var m := GreaterAt(a[1..], b[1..]);
      k := m + 1;
      assert a[..k] == [a[0]] + a[1..][..m] && b[..k] == [b[0]] + b[1..][..m];
      if k == |b| {
        assert a[..k] == b;
      } else if |b| <= |a| {
        assert a[..|b|][k] != b[k];
      }
    }
  }

  /** On strings of one length, > on bytes is > on the numbers. */
  lemma GreaterIsOrder(a: seq<byte>, b: seq<byte>)
    requires |a| == |b|
    ensures Greater(a, b) <==> BigEndian(b) < BigEndian(a)
  {
    if Greater(a, b) {
      var k := GreaterAt(a, b);
      BigEndianOrder(b, a, k);
    } else if a != b {
      NotGreater(a, b);
      var k := GreaterAt(b, a);
      BigEndianOrder(a, b, k);
    }
  }

  lemma {:induction false} NotGreater(a: seq<byte>, b: seq<byte>)
    requires a != b && !Greater(a, b)
    ensures Greater(b, a)
  {
    if a != [] && b != [] && a[0] == b[0] {
      assert a == [a[0]] + a[1..] && b == [b[0]] + b[1..];
      NotGreater(a[1..], b[1..]);
    }
  }

  lemma {:induction false} GreaterAfter(p: seq<byte>, a: seq<byte>, b: seq<byte>)
    ensures Greater(p + a, p + b) <==> Greater(a, b)
  {
    if p == [] {
      assert p + a == a && p + b == b;
    } else {
      assert (p + a)[1..] == p[1..] + a && (p + b)[1..] == p[1..] + b;
      GreaterAfter(p[1..], a, b);
    }
  }

  lemma {:induction false} GreaterBefore(a: seq<byte>, b: seq<byte>, q: seq<byte>)
    requires |a| == |b|
    ensures Greater(a + q, b + q) <==> Greater(a, b)
  {
    if a == [] {
      assert a + q == q && b + q == q;
      NotSelf(q);
    } else {
      assert (a + q)[1..] == a[1..] + q && (b + q)[1..] == b[1..] + q;
      GreaterBefore(a[1..], b[1..], q);
    }
  }

  lemma {:induction false} NotSelf(q: seq<byte>)
    ensures !Greater(q, q)
  {
    if q != [] {
      NotSelf(q[1..]);
    }
  }

  lemma {:induction false} DifferEarly(a: seq<byte>, b: seq<byte>, x: seq<byte>, y: seq<byte>)
    requires Greater(a, b) && !IsPrefix(b, a)
    ensures Greater(a + x, b + y)
  {
    EmptyIsPrefix(a, b);
    assert (a + x)[1..] == a[1..] + x && (b + y)[1..] == b[1..] + y;
    if a[0] == b[0] {
      PrefixTail(b, a);
      DifferEarly(a[1..], b[1..], x, y);
    }
  }

  lemma EmptyIsPrefix(a: seq<byte>, b: seq<byte>)
    ensures b == [] ==> IsPrefix(b, a)
  {
  }

  lemma PrefixTail(b: seq<byte>, a: seq<byte>)
    requires a != [] && b != [] && a[0] == b[0]
    ensures IsPrefix(b[1..], a[1..]) ==> IsPrefix(b, a)
  {
    if IsPrefix(b[1..], a[1..]) {
      assert a[..|b|] == [a[0]] + a[1..][..|b| - 1];
      assert b == [b[0]] + b[1..];
    }
  }

  lemma SwapParts(test: seq<byte>, ci: Cut, cj: Cut)
    requires Proper(ci) && Proper(cj) && CanSwap(test, ci, cj)
    ensures
      var (bi, mid, bj) := (Slice(test, ci.0, ci.1 + 1), Slice(test, ci.1 + 1, cj.0), Slice(test, cj.0, cj.1 + 1));
      test == Upto(test, ci.0) + bi + mid + bj + Past(test, cj.1 + 1)
  {
    var n := |test|;
    var a, b, c, d := Clip(n, ci.0), Clip(n, ci.1 + 1), Clip(n, cj.0), Clip(n, cj.1 + 1);
    OrderedCuts(test, ci, cj);
    FiveParts(test, a, b, c, d);
  }

  /** A stretch that starts at -1 is never swapped. */
  lemma SwapIsInside(test: seq<byte>, ci: Cut, cj: Cut)
    requires Bounded(ci) && Bounded(cj) && CanSwap(test, ci, cj)
    ensures Proper(ci) && Proper(cj)
  {
  }

  /** A swap moves the bytes around. */
  lemma SwapKeepsWeight(test: seq<byte>, ci: Cut, cj: Cut)
    requires Proper(ci) && Proper(cj) && CanSwap(test, ci, cj)
    ensures |Swap(test, ci, cj)| == |test| && Sum(Swap(test, ci, cj)) == Sum(test)
  {
    var bi, mid, bj := Slice(test, ci.0, ci.1 + 1), Slice(test, ci.1 + 1, cj.0), Slice(test, cj.0, cj.1 + 1);
    SwapParts(test, ci, cj);
    SumOfFive(Upto(test, ci.0), bi, mid, bj, Past(test, cj.1 + 1));
    SumOfFive(Upto(test, ci.0), bj, mid, bi, Past(test, cj.1 + 1));
  }

  lemma OrderedCuts(test: seq<byte>, ci: Cut, cj: Cut)
    requires Proper(ci) && Proper(cj) && CanSwap(test, ci, cj)
    ensures var n := |test|;
      Clip(n, ci.0) <= Clip(n, ci.1 + 1) <= Clip(n, cj.0) <= Clip(n, cj.1 + 1) <= n
  {
  }

  lemma FiveParts(test: seq<byte>, a: nat, b: nat, c: nat, d: nat)
    requires a <= b <= c <= d <= |test|
    ensures test == test[..a] + test[a..b] + test[b..c] + test[c..d] + test[d..]
  {
  }

  /** What a swap does to the order of the two arrangements. */
  lemma Rearranged(pre: seq<byte>, bi: seq<byte>, mid: seq<byte>, bj: seq<byte>, post: seq<byte>)
    ensures var (was, next) := (pre + bi + mid + bj + post, pre + bj + mid + bi + post);
      BigEndian(next) < BigEndian(was) <==> Greater(bi + mid + bj, bj + mid + bi)
  {
    var x, y := bi + mid + bj, bj + mid + bi;
    assert pre + bi + mid + bj + post == pre + (x + post) && pre + bj + mid + bi + post == pre + (y + post);
    GreaterIsOrder(pre + (x + post), pre + (y + post));
    GreaterAfter(pre, x + post, y + post);
    GreaterBefore(x, y, post);
  }

  /** The stretch moved forward is not a prefix of the one moved back, or the rest of
      the latter is greater where it stood than where it goes. */
  ghost predicate MovesDown(test: seq<byte>, ci: Cut, cj: Cut) {
    var (bi, mid, bj) := (Slice(test, ci.0, ci.1 + 1), Slice(test, ci.1 + 1, cj.0), Slice(test, cj.0, cj.1 + 1));
    !IsPrefix(bj, bi) || Greater(bi[|bj|..] + mid + bj, mid + bj + bi[|bj|..])
  }

  /** An accepted swap lowers the test exactly when it moves down. */
  lemma SwapLowersExactly(test: seq<byte>, ci: Cut, cj: Cut)
    requires Bounded(ci) && Bounded(cj) && CanSwap(test, ci, cj)
    ensures Lowers(Swap(test, ci, cj), test) <==> MovesDown(test, ci, cj)
  {
    var bi, mid, bj := Slice(test, ci.0, ci.1 + 1), Slice(test, ci.1 + 1, cj.0), Slice(test, cj.0, cj.1 + 1);
    SwapIsInside(test, ci, cj);
    SwapParts(test, ci, cj);
    Rearranged(Upto(test, ci.0), bi, mid, bj, Past(test, cj.1 + 1));
    SwapOrder(bi, mid, bj);
  }

  lemma SwapOrder(bi: seq<byte>, mid: seq<byte>, bj: seq<byte>)
    requires Greater(bi, bj)
    ensures Greater(bi + mid + bj, bj + mid + bi) <==>
            !IsPrefix(bj, bi) || Greater(bi[|bj|..] + mid + bj, mid + bj + bi[|bj|..])
  {
    if IsPrefix(bj, bi) {
      var x := bi[|bj|..];
      assert bi == bj + x;
      assert bi + mid + bj == bj + (x + mid + bj) && bj + mid + bi == bj + (mid + bj + x);
      GreaterAfter(bj, x + mid + bj, mid + bj + x);
    } else {
      assert bi + mid + bj == bi + (mid + bj) && bj + mid + bi == bj + (mid + bi);
      DifferEarly(bi, bj, mid + bj, mid + bi);
    }
  }

  /** A harness is regular exactly when no test can grow and accepted swaps move down. */
  lemma RegularExactly(setup: Setup, program: Program, bound: seq<byte>)
    requires setup.Runs(program) && !setup.noStructure
    ensures setup.Regular(bound) <==>
      && setup.NeverGrows(bound)
      && forall ran, test, ci, cj ::
           setup.Swaps(ran, test, ci, cj) && NotHeavier(test, bound) ==> MovesDown(test, ci, cj)
  {
    forall ran, test, ci, cj | setup.Swaps(ran, test, ci, cj)
      ensures Lowers(Swap(test, ci, cj), test) <==> MovesDown(test, ci, cj)
    {
      CutsAreBounded(setup, program, ran, test, ci);
      CutsAreBounded(setup, program, ran, test, cj);
      SwapLowersExactly(test, ci, cj);
    }
  }

  /** It is enough that calls start inside and no accepted swap moves a prefix of the
      other stretch forward. */
  lemma RegularWithoutPrefixes(setup: Setup, program: Program, bound: seq<byte>)
    requires setup.Runs(program) && forall test :: setup.Sat(test) ==> setup.StartsInside(test)
    requires forall ran, test, ci, cj :: setup.Swaps(ran, test, ci, cj) ==>
      !IsPrefix(Slice(test, cj.0, cj.1 + 1), Slice(test, ci.0, ci.1 + 1))
    ensures setup.Regular(bound)
  {
    InsideNeverGrows(setup, program, bound);
    if !setup.noStructure {
      RegularExactly(setup, program, bound);
    }
  }
}
