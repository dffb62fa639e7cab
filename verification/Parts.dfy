/** What it means that no candidate is left, told by the parts of the test. */
module Parts {
  import opened Words
  import opened Programs
  import opened RangeRewrite
  import opened Structure
  import opened Calls
  import opened Candidates

  ghost predicate Splits(test: seq<byte>, pre: seq<byte>, mid: seq<byte>, post: seq<byte>) {
    test == pre + mid + post
  }

  /** Without `k` bytes that start between `lo` and `hi`, or what is left of them at
      the end, the test fails the criterion. */
  ghost predicate ChunksMatter(setup: Setup, test: seq<byte>, k: nat, lo: nat, hi: nat) {
    forall pre, mid, post ::
      Splits(test, pre, mid, post) && mid != [] && (|mid| == k || (|mid| < k && post == [])) && lo <= |pre| < hi
      ==> !setup.Sat(pre + post)
  }

  /** So it does without `k` bytes after a byte that is lowered by one. */
  ghost predicate ReductionsMatter(setup: Setup, test: seq<byte>, k: nat) {
    forall pre: seq<byte>, x: byte, mid: seq<byte>, post: seq<byte> ::
      Splits(test, pre, [x] + mid, post) && |mid| == k && x > 0
      ==> !setup.Sat(pre + [x - 1] + post)
  }

  /** Without a range of two bytes or more that stops before the end, shorter than
      `width` and not of the two lengths that chunks have. */
  ghost predicate RangesMatter(setup: Setup, test: seq<byte>, width: int) {
    forall pre, mid, post ::
      Splits(test, pre, mid, post) && 2 <= |mid| < width && |mid| != 4 && |mid| != 8 && post != []
      ==> !setup.Sat(pre + post)
  }

  /** With a smaller byte. */
  ghost predicate BytesMatter(setup: Setup, test: seq<byte>) {
    forall pre, x: byte, y: byte, post :: Splits(test, pre, [x], post) && y < x ==> !setup.Sat(pre + [y] + post)
  }

  ghost predicate Repeats(test: seq<byte>, pre: seq<byte>, x: byte, y: byte, mid: seq<byte>, post: seq<byte>) {
    test == pre + [x, y] + mid + [x, y] + post && |post| >= 3
  }

  /** With a pair of bytes that occurs twice shortened to either byte or to one less
      than the first, or with either byte lowered, in both places. */
  ghost predicate PatternsMatter(setup: Setup, test: seq<byte>) {
    forall pre: seq<byte>, x: byte, y: byte, mid: seq<byte>, post: seq<byte> ::
      Repeats(test, pre, x, y, mid, post) ==>
      && !setup.Sat(pre + [x] + mid + [x] + post)
      && !setup.Sat(pre + [y] + mid + [y] + post)
      && (x > 0 ==> !setup.Sat(pre + [x - 1] + mid + [x - 1] + post))
      && (forall v: byte :: v < x ==> !setup.Sat(pre + [v, y] + mid + [v, y] + post))
      && (forall v: byte :: v < y ==> !setup.Sat(pre + [x, v] + mid + [x, v] + post))
  }

  /** `mid` is the stretch of the cut, as far as the test goes. */
  ghost predicate Holds(c: Cut, pre: seq<byte>, mid: seq<byte>, post: seq<byte>) {
    |pre| == c.0 && (|pre + mid| == c.1 + 1 || (|pre + mid| <= c.1 && post == []))
  }

  /** Without a stretch. */
  ghost predicate StretchMatters(setup: Setup, test: seq<byte>, c: Cut) {
    forall pre, mid, post :: Splits(test, pre, mid, post) && Holds(c, pre, mid, post) && mid != []
      ==> !setup.Sat(pre + post)
  }

  /** A stretch that starts at -1 does not leave out its own bytes: the last byte of the
      test is dropped, and what comes after the stop repeated. */
  ghost predicate BackStretchMatters(setup: Setup, test: seq<byte>, c: Cut) {
    c.0 == -1 ==> forall init, last, head, rest ::
      Splits(test, init, [last], []) && Splits(test, head, rest, []) && |rest| != 1
      && (|head| == c.1 + 1 || (|head| <= c.1 && rest == []))
      ==> !setup.Sat(init + rest)
  }

  /** Without the two ends of a stretch. */
  ghost predicate EndsMatter(setup: Setup, test: seq<byte>, c: Cut) {
    forall pre: seq<byte>, first: byte, mid: seq<byte>, last: byte, post: seq<byte> ::
      Splits(test, pre, [first] + mid + [last], post) && c == (|pre|, |pre| + |mid| + 1)
      ==> !setup.Sat(pre + mid + post)
  }

  /** Without the one end that a stretch has, be it of one byte or beyond the test. */
  ghost predicate EndMatters(setup: Setup, test: seq<byte>, c: Cut) {
    forall pre: seq<byte>, first: byte, rest: seq<byte> ::
      Splits(test, pre, [first] + rest, []) && c.0 == |pre| && (c.1 == c.0 || c.1 >= |test|)
      ==> !setup.Sat(pre + rest)
  }

  /** And with a start at -1: the last byte and the stop are dropped, and the rest
      repeated. */
  ghost predicate BackEndsMatter(setup: Setup, test: seq<byte>, c: Cut) {
    c.0 == -1 && |test| != 2 ==> forall init: seq<byte>, last: byte, head: seq<byte>, at: byte, rest: seq<byte> ::
      Splits(test, init, [last], []) && Splits(test, head, [at], rest) && |head| == c.1
      ==> !setup.Sat(init + head + rest)
  }

  ghost predicate StructureMatters(setup: Setup, test: seq<byte>) {
    forall c :: c in setup.Cuts(test) ==>
      && StretchMatters(setup, test, c) && BackStretchMatters(setup, test, c)
      && EndsMatter(setup, test, c) && EndMatters(setup, test, c) && BackEndsMatter(setup, test, c)
  }

  /** `a` comes after `b` in the order of strings. */
  ghost predicate ComesAfter(a: seq<byte>, b: seq<byte>) {
    || (|b| < |a| && a[..|b|] == b)
    || exists k :: 0 <= k < |a| && k < |b| && a[..k] == b[..k] && a[k] > b[k]
  }

  ghost predicate Five(test: seq<byte>, pre: seq<byte>, bi: seq<byte>, mid: seq<byte>, bj: seq<byte>, post: seq<byte>) {
    test == pre + bi + mid + bj + post
  }

  /** With two stretches exchanged, of which the first one comes after the second. */
  ghost predicate OrderMatters(setup: Setup, test: seq<byte>, ci: Cut, cj: Cut) {
    forall pre, bi, mid, bj, post :: Five(test, pre, bi, mid, bj, post)
      && Holds(ci, pre, bi, mid + bj + post) && Holds(cj, pre + bi + mid, bj, post)
      && bj != [] && ComesAfter(bi, bj)
      ==> !setup.Sat(pre + bj + mid + bi + post)
  }

  ghost predicate OrdersMatter(setup: Setup, test: seq<byte>) {
    var cuts := setup.Cuts(test);
    forall i, j :: 0 <= i < j < |cuts| ==> OrderMatters(setup, test, cuts[i], cuts[j])
  }

  ghost predicate ChunkSizesMatter(setup: Setup, test: seq<byte>, k: nat) {
    ChunksMatter(setup, test, k, 0, |test|) && ReductionsMatter(setup, test, k)
  }

  /** Whatever an enabled pass could take away, lower or exchange matters. */
  ghost predicate Irreducible(setup: Setup, test: seq<byte>, width: int) {
    && ChunkSizesMatter(setup, test, 1) && ChunkSizesMatter(setup, test, 4) && ChunkSizesMatter(setup, test, 8)
    && (!setup.fast ==> RangesMatter(setup, test, width))
    && BytesMatter(setup, test)
    && (setup.slow || setup.slowest ==> PatternsMatter(setup, test))
    && (!setup.noStructure ==> StructureMatters(setup, test) && OrdersMatter(setup, test))
  }

  // ----- the candidates by their parts

  lemma ChunksInParts(setup: Setup, test: seq<byte>, k: nat, lo: nat, hi: nat)
    requires k > 0 && hi <= |test| && setup.NoChunkFrom(test, k, lo, hi)
    ensures ChunksMatter(setup, test, k, lo, hi)
  {
    forall pre, mid, post | Splits(test, pre, mid, post) && mid != []
        && (|mid| == k || (|mid| < k && post == [])) && lo <= |pre| < hi
      ensures !setup.Sat(pre + post)
    {
      assert ChunkOut(test, |pre|, k) == pre + post;
    }
  }

  lemma ReductionsInParts(setup: Setup, test: seq<byte>, k: nat)
    requires setup.NoReduce(test, k)
    ensures ReductionsMatter(setup, test, k)
  {
    forall pre: seq<byte>, x: byte, mid: seq<byte>, post: seq<byte> |
      Splits(test, pre, [x] + mid, post) && |mid| == k && x > 0
      ensures !setup.Sat(pre + [x - 1] + post)
    {
      assert test[|pre|] == x && test[|pre| + k + 1..] == post;
      assert ReduceAndDelete(test, |pre|, k) == pre + [x - 1] + post;
    }
  }

  lemma RangesInParts(setup: Setup, test: seq<byte>, width: int)
    requires setup.NoRange(test, width)
    ensures RangesMatter(setup, test, width)
  {
    forall pre, mid, post |
      Splits(test, pre, mid, post) && 2 <= |mid| < width && |mid| != 4 && |mid| != 8 && post != []
      ensures !setup.Sat(pre + post)
    {
      assert setup.NoRangeFrom(test, |pre|, width, |test|);
      assert RangeOut(test, |pre|, |pre| + |mid|) == pre + post;
    }
  }

  lemma BytesInParts(setup: Setup, test: seq<byte>)
    requires setup.NoLower(test)
    ensures BytesMatter(setup, test)
  {
    forall pre, x: byte, y: byte, post | Splits(test, pre, [x], post) && y < x
      ensures !setup.Sat(pre + [y] + post)
    {
      assert setup.NoLowerAt(test, |pre|, 256) && test[|pre|] == x;
      assert LowerByte(test, |pre|, y) == pre + [y] + post;
    }
  }

  lemma PatternsInParts(setup: Setup, test: seq<byte>)
    requires setup.NoPattern(test)
    ensures PatternsMatter(setup, test)
  {
    forall pre: seq<byte>, x: byte, y: byte, mid: seq<byte>, post: seq<byte> | Repeats(test, pre, x, y, mid, post)
      ensures !setup.Sat(pre + [x] + mid + [x] + post) && !setup.Sat(pre + [y] + mid + [y] + post)
      ensures x > 0 ==> !setup.Sat(pre + [x - 1] + mid + [x - 1] + post)
      ensures forall v: byte :: v < x ==> !setup.Sat(pre + [v, y] + mid + [v, y] + post)
      ensures forall v: byte :: v < y ==> !setup.Sat(pre + [x, v] + mid + [x, v] + post)
    {
      PatternTried(setup, test, pre, x, y, mid, post, [x]);
      PatternTried(setup, test, pre, x, y, mid, post, [y]);
      if x > 0 {
        PatternTried(setup, test, pre, x, y, mid, post, [x - 1]);
      }
      forall v: byte | v < x
        ensures !setup.Sat(pre + [v, y] + mid + [v, y] + post)
      {
        PatternTried(setup, test, pre, x, y, mid, post, [v, y]);
      }
      forall v: byte | v < y
        ensures !setup.Sat(pre + [x, v] + mid + [x, v] + post)
      {
        PatternTried(setup, test, pre, x, y, mid, post, [x, v]);
      }
    }
  }

  ghost predicate Replaces(x: byte, y: byte, w: seq<byte>) {
    || w == [x] || w == [y] || (x > 0 && w == [x - 1])
    || (|w| == 2 && ((w[0] < x && w[1] == y) || (w[0] == x && w[1] < y)))
  }

  lemma PatternTried(setup: Setup, test: seq<byte>, pre: seq<byte>, x: byte, y: byte, mid: seq<byte>, post: seq<byte>,
                     w: seq<byte>)
    requires setup.NoPattern(test) && Repeats(test, pre, x, y, mid, post) && Replaces(x, y, w)
    ensures !setup.Sat(pre + w + mid + w + post)
  {
    var b1, b2 := |pre|, |pre| + 2 + |mid|;
    PatternThere(test, pre, x, y, mid, post, b1, b2);
    IsReplacement(x, y, w);
    assert ChangePattern(test, b1, b2, w) == pre + w + mid + w + post;
  }

  lemma PatternThere(test: seq<byte>, pre: seq<byte>, x: byte, y: byte, mid: seq<byte>, post: seq<byte>, b1: nat,
                     b2: nat)
    requires Repeats(test, pre, x, y, mid, post) && b1 == |pre| && b2 == |pre| + 2 + |mid|
    ensures IsPattern(test, b1, b2) && test[b1] == x && test[b1 + 1] == y
    ensures test[..b1] == pre && test[b1 + 2..b2] == mid && test[b2 + 2..] == post
  {
    assert test == pre + ([x, y] + mid + [x, y] + post);
    assert test[b2] == x && test[b2 + 1] == y;
  }

  lemma IsReplacement(x: byte, y: byte, w: seq<byte>)
    requires Replaces(x, y, w)
    ensures w in Replacements(x, y)
  {
    var all := Replacements(x, y);
    assert all[0] == [x] && all[1] == [y];
    if |w| == 2 && w[0] < x && w[1] == y {
      assert all[2 + w[0]] == [w[0], y] == w;
    } else if x > 0 && w == [x - 1] {
      assert all[2 + x] == w;
    } else if |w| == 2 {
      assert all[|all| - y + w[1]] == [x, w[1]] == w;
    }
  }

  lemma StretchInParts(setup: Setup, test: seq<byte>, c: Cut)
    requires setup.CutFails(test, c)
    ensures StretchMatters(setup, test, c) && BackStretchMatters(setup, test, c)
  {
    forall pre, mid, post | Splits(test, pre, mid, post) && Holds(c, pre, mid, post) && mid != []
      ensures !setup.Sat(pre + post)
    {
      assert CutOut(test, c) == pre + post;
    }
    forall init, last, head, rest |
      c.0 == -1 && Splits(test, init, [last], []) && Splits(test, head, rest, []) && |rest| != 1
      && (|head| == c.1 + 1 || (|head| <= c.1 && rest == []))
      ensures !setup.Sat(init + rest)
    {
      assert CutOut(test, c) == init + rest;
    }
  }

  lemma EndsInParts(setup: Setup, test: seq<byte>, c: Cut)
    requires setup.EdgeFails(test, c)
    ensures EndsMatter(setup, test, c)
  {
    forall pre: seq<byte>, first: byte, mid: seq<byte>, last: byte, post: seq<byte> |
      Splits(test, pre, [first] + mid + [last], post) && c == (|pre|, |pre| + |mid| + 1)
      ensures !setup.Sat(pre + mid + post)
    {
      BothEnds(test, pre, first, mid, last, post);
    }
  }

  lemma BothEnds(test: seq<byte>, pre: seq<byte>, first: byte, mid: seq<byte>, last: byte, post: seq<byte>)
    requires Splits(test, pre, [first] + mid + [last], post)
    ensures EdgesOut(test, (|pre|, |pre| + |mid| + 1)) == pre + mid + post && |pre + mid + post| + 2 == |test|
  {
    var a, b := |pre| + 1, |pre| + |mid| + 1;
    assert test[..|pre|] == pre && test[a..b] == mid && test[b + 1..] == post;
  }

  lemma EndInParts(setup: Setup, test: seq<byte>, c: Cut)
    requires setup.EdgeFails(test, c)
    ensures EndMatters(setup, test, c)
  {
    forall pre: seq<byte>, first: byte, rest: seq<byte> |
      Splits(test, pre, [first] + rest, []) && c.0 == |pre| && (c.1 == c.0 || c.1 >= |test|)
      ensures !setup.Sat(pre + rest)
    {
      OneEnd(test, pre, first, rest, c);
    }
  }

  lemma OneEnd(test: seq<byte>, pre: seq<byte>, first: byte, rest: seq<byte>, c: Cut)
    requires Splits(test, pre, [first] + rest, []) && c.0 == |pre| && (c.1 == c.0 || c.1 >= |test|)
    ensures EdgesOut(test, c) == pre + rest && |pre + rest| + 1 == |test|
  {
    assert test[..|pre|] == pre && test[|pre| + 1..] == rest;
    assert pre + [] + rest == pre + rest == pre + rest + [];
  }

  lemma BackEndsInParts(setup: Setup, test: seq<byte>, c: Cut)
    requires setup.EdgeFails(test, c)
    ensures BackEndsMatter(setup, test, c)
  {
    forall init: seq<byte>, last: byte, head: seq<byte>, at: byte, rest: seq<byte> |
      c.0 == -1 && |test| != 2 && Splits(test, init, [last], []) && Splits(test, head, [at], rest) && |head| == c.1
      ensures !setup.Sat(init + head + rest)
    {
      BackEnds(test, init, last, head, at, rest);
    }
  }

  lemma BackEnds(test: seq<byte>, init: seq<byte>, last: byte, head: seq<byte>, at: byte, rest: seq<byte>)
    requires Splits(test, init, [last], []) && Splits(test, head, [at], rest)
    ensures EdgesOut(test, (-1, |head|)) == init + head + rest && |init + head + rest| == 2 * |test| - 2
  {
    assert test[..|test| - 1] == init && test[..|head|] == head && test[|head| + 1..] == rest;
  }

  lemma {:induction false} ComesAfterIsGreater(a: seq<byte>, b: seq<byte>)
    ensures Greater(a, b) <==> ComesAfter(a, b)
  {
    if a != [] && b != [] && a[0] == b[0] {
      ComesAfterIsGreater(a[1..], b[1..]);
      ComesAfterTail(a, b);
    } else if a != [] && b != [] && a[0] > b[0] {
      assert a[..0] == b[..0];
    } else if a != [] && b == [] {
      assert a[..|b|] == b;
    }
  }

  lemma ComesAfterTail(a: seq<byte>, b: seq<byte>)
    requires a != [] && b != [] && a[0] == b[0]
    ensures ComesAfter(a, b) <==> ComesAfter(a[1..], b[1..])
  {
    assert a == [a[0]] + a[1..] && b == [b[0]] + b[1..];
    if |b| < |a| {
      assert a[..|b|] == [a[0]] + a[1..][..|b| - 1];
    }
    forall k | 0 < k < |a| && k < |b|
      ensures a[..k] == b[..k] <==> a[1..][..k - 1] == b[1..][..k - 1]
    {
      assert a[..k] == [a[0]] + a[1..][..k - 1] && b[..k] == [b[0]] + b[1..][..k - 1];
      assert a[..k][1..] == a[1..][..k - 1] && b[..k][1..] == b[1..][..k - 1];
    }
    if ComesAfter(a, b) && !(|b| < |a| && a[..|b|] == b) {
      var k :| 0 <= k < |a| && k < |b| && a[..k] == b[..k] && a[k] > b[k];
      assert a[1..][..k - 1] == b[1..][..k - 1] && a[1..][k - 1] > b[1..][k - 1];
    }
    if ComesAfter(a[1..], b[1..]) && !(|b| < |a| && a[1..][..|b| - 1] == b[1..]) {
      var k :| 0 <= k < |a| - 1 && k < |b| - 1 && a[1..][..k] == b[1..][..k] && a[1..][k] > b[1..][k];
      assert a[..k + 1] == b[..k + 1] && a[k + 1] > b[k + 1];
    }
  }

  lemma OrderInParts(setup: Setup, test: seq<byte>, ci: Cut, cj: Cut)
    requires setup.SwapFails(test, ci, cj)
    ensures OrderMatters(setup, test, ci, cj)
  {
    forall pre, bi, mid, bj, post | Five(test, pre, bi, mid, bj, post)
        && Holds(ci, pre, bi, mid + bj + post) && Holds(cj, pre + bi + mid, bj, post)
        && bj != [] && ComesAfter(bi, bj)
      ensures !setup.Sat(pre + bj + mid + bi + post)
    {
      FiveStretches(test, pre, bi, mid, bj, post, ci, cj);
      ComesAfterIsGreater(bi, bj);
    }
  }

  lemma FiveStretches(test: seq<byte>, pre: seq<byte>, bi: seq<byte>, mid: seq<byte>, bj: seq<byte>, post: seq<byte>,
                      ci: Cut, cj: Cut)
    requires Five(test, pre, bi, mid, bj, post) && bj != []
    requires Holds(ci, pre, bi, mid + bj + post) && Holds(cj, pre + bi + mid, bj, post)
    ensures Slice(test, ci.0, ci.1 + 1) == bi && Slice(test, cj.0, cj.1 + 1) == bj && cj.0 > ci.1
    ensures Swap(test, ci, cj) == pre + bj + mid + bi + post
  {
    var a, b, c, d := |pre|, |pre + bi|, |pre + bi + mid|, |pre + bi + mid + bj|;
    assert test[..a] == pre && test[a..b] == bi && test[b..c] == mid && test[c..d] == bj && test[d..] == post;
  }

  /** A minimal test is irreducible. */
  lemma MinimalIsIrreducible(setup: Setup, test: seq<byte>, width: int)
    ensures setup.Minimal(test, width) ==> Irreducible(setup, test, width)
  {
    if setup.Minimal(test, width) {
      SizesInParts(setup, test);
      if !setup.fast {
        RangesInParts(setup, test, width);
      }
      BytesInParts(setup, test);
      if setup.slow || setup.slowest {
        PatternsInParts(setup, test);
      }
      if !setup.noStructure {
        StructureInParts(setup, test, setup.Cuts(test));
        OrdersInParts(setup, test, setup.Cuts(test));
      }
    }
  }

  lemma SizesInParts(setup: Setup, test: seq<byte>)
    requires setup.NoChunks(test) && setup.NoReduces(test)
    ensures ChunkSizesMatter(setup, test, 1) && ChunkSizesMatter(setup, test, 4) && ChunkSizesMatter(setup, test, 8)
  {
    ChunksInParts(setup, test, 1, 0, |test|);
    ChunksInParts(setup, test, 4, 0, |test|);
    ChunksInParts(setup, test, 8, 0, |test|);
    ReductionsInParts(setup, test, 1);
    ReductionsInParts(setup, test, 4);
    ReductionsInParts(setup, test, 8);
  }

  lemma StructureInParts(setup: Setup, test: seq<byte>, cuts: seq<Cut>)
    requires cuts == setup.Cuts(test) && setup.NoCut(test, cuts) && setup.NoEdge(test, cuts)
    ensures StructureMatters(setup, test)
  {
    forall c | c in cuts
      ensures StretchMatters(setup, test, c) && BackStretchMatters(setup, test, c)
      ensures EndsMatter(setup, test, c) && EndMatters(setup, test, c) && BackEndsMatter(setup, test, c)
    {
      assert setup.CutFails(test, c) && setup.EdgeFails(test, c);
      StretchInParts(setup, test, c);
      EndsInParts(setup, test, c);
      EndInParts(setup, test, c);
      BackEndsInParts(setup, test, c);
    }
  }

  lemma OrdersInParts(setup: Setup, test: seq<byte>, cuts: seq<Cut>)
    requires cuts == setup.Cuts(test) && setup.NoSwap(test, cuts)
    ensures OrdersMatter(setup, test)
  {
    forall i, j | 0 <= i < j < |cuts|
      ensures OrderMatters(setup, test, cuts[i], cuts[j])
    {
      assert setup.NoSwapWith(test, cuts, i, |cuts|) && setup.SwapFails(test, cuts[i], cuts[j]);
      OrderInParts(setup, test, cuts[i], cuts[j]);
    }
  }

  // ----- the test that is looked at, and where it can be cut

  /** Unless structure is ignored, a test is rewritten by the conversions of its run,
      all of them. */
  lemma TidyExactly(setup: Setup, program: Program, test: seq<byte>)
    requires setup.Runs(program)
    ensures if setup.noStructure then setup.Tidy(test) == test
            else RewrittenTo(test, Conversions(setup.binary(test).log), setup.Tidy(test))
  {
    assert setup.binary(test) == Execute(program, test);
    RewriteIsComplete(program, test);
  }

  /** The position on the last line that reads a byte. */
  ghost predicate ReadLast(log: seq<Event>, pos: nat) {
    exists k :: 0 <= k < |log| && log[k] == ReadByte(pos) && forall m :: k < m < |log| ==> !log[m].ReadByte?
  }

  /** A test ends with the last byte that its run reads.  If it reads none, or structure
      is ignored, nothing is dropped. */
  lemma ShortenExactly(setup: Setup, test: seq<byte>)
    ensures setup.noStructure ==> Shorten(setup, test) == test
    ensures (forall pos: nat :: !ReadLast(setup.binary(test).log, pos)) ==> Shorten(setup, test) == test
    ensures forall pos: nat :: !setup.noStructure && ReadLast(setup.binary(test).log, pos) ==>
      Shorten(setup, test) == if pos + 1 <= |test| then test[..pos + 1] else test
  {
    if !setup.noStructure {
      var log := setup.binary(test).log;
      DefaultUnused(log, |test| - 1, |test| - 1);
      LastReadIsLast(log, |test| - 1);
      if ReadIn(log, -1, |log|) {
        var k :| 0 <= k < |log| && log[k].ReadByte? && log[k].pos == setup.LastReadOf(test)
                 && forall m :: k < m < |log| ==> !log[m].ReadByte?;
        assert ReadLast(log, log[k].pos);
        forall pos: nat | ReadLast(log, pos)
          ensures pos == log[k].pos
        {
        }
      } else {
        forall pos: nat
          ensures !ReadLast(log, pos)
        {
          assert forall j :: 0 <= j < |log| ==> !log[j].ReadByte?;
        }
      }
    }
  }

  ghost predicate CallCut(log: seq<Event>, lastByte: int, c: Cut) {
    exists s: nat, k: nat :: CutOfCall(log, lastByte, s, k, c)
  }

  ghost predicate DelimCut(test: seq<byte>, c: Cut) {
    exists k: nat, m: int :: Delimits(test, k, m) && Around(c, k, m)
  }

  /** A test can be cut at its OneOf calls and between its delimiters, unless the
      options say otherwise, and nowhere else. */
  lemma CutsAreThese(setup: Setup, test: seq<byte>, c: Cut)
    ensures c in setup.Cuts(test) <==>
      || (!setup.noStructure && CallCut(setup.binary(test).log, |test| - 1, c))
      || (!setup.noStaticStructure && DelimCut(test, c))
  {
    CutsExactly(setup.binary(test).log, |test| - 1, c);
    DelimsByCharacter(test, c);
  }
}
