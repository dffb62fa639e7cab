/** Where a test can be cut: the bytes read inside each OneOf call, taken from the
    log with an explicit stack, and the stretches between matching delimiters. */
module Structure {
  import opened Words
  import opened Programs
  import opened RangeRewrite

  /** A stretch of a test, both ends included.  It starts at -1 for a OneOf call
      that read nothing. */
  type Cut = (int, int)

  // ----- the OneOf calls of a log

  /** The start recorded for every open call (-1: nothing read yet), and the last
      position read. */
  datatype Scan = Scan(open: seq<int>, lastRead: int)

  function Front(log: seq<Event>): seq<Event>
    requires log != []
  {
    log[..|log| - 1]
  }

  function Last<T>(s: seq<T>): T
    requires s != []
  {
    s[|s| - 1]
  }

  function Advance(sc: Scan, e: Event): Scan {
    match e
    case StartOneOf => sc.(open := sc.open + [-1])
    case ReadByte(pos) =>
      Scan(if sc.open != [] && Last(sc.open) == -1 then sc.open[|sc.open| - 1 := pos] else sc.open, pos)
    case FinishOneOf => if sc.open == [] then sc else sc.(open := sc.open[..|sc.open| - 1])
    case _ => sc
  }

  function ScanLog(log: seq<Event>, lastByte: int): Scan {
    if log == [] then Scan([], lastByte) else Advance(ScanLog(Front(log), lastByte), Last(log))
  }

  function CutsOfLog(log: seq<Event>, lastByte: int): seq<Cut> {
    if log == [] then []
    else
      var sc := ScanLog(Front(log), lastByte);
      CutsOfLog(Front(log), lastByte)
        + (if Last(log).FinishOneOf? && sc.open != [] then [(Last(sc.open), sc.lastRead)] else [])
  }

  /** The log positions of the calls that are still open at its end. */
  function Opens(log: seq<Event>): seq<nat> {
    if log == [] then []
    else
      var before := Opens(Front(log));
      match Last(log)
      case StartOneOf => before + [|log| - 1]
      case FinishOneOf => if before == [] then [] else before[..|before| - 1]
      case _ => before
  }

  /** Finishing a call that was never started stops the original. */
  ghost predicate Bracketed(log: seq<Event>) {
    forall k :: 0 <= k < |log| && log[k].FinishOneOf? ==> Opens(log[..k]) != []
  }

  lemma {:induction false} SameDepth(log: seq<Event>, lastByte: int)
    ensures |ScanLog(log, lastByte).open| == |Opens(log)|
  {
    if log != [] {
      SameDepth(Front(log), lastByte);
    }
  }

  method OneOfCalls(log: seq<Event>, size: nat, noStructure: bool) returns (cuts: seq<Cut>, lastRead: int)
    requires Bracketed(log)
    ensures if noStructure then cuts == [] && lastRead == size - 1
            else cuts == CutsOfLog(log, size - 1) && lastRead == ScanLog(log, size - 1).lastRead
  {
    cuts, lastRead := [], size - 1;
    if noStructure {
      return;
    }
    var currentOneOf: seq<int> := [];
    for i := 0 to |log|
      invariant Scan(currentOneOf, lastRead) == ScanLog(log[..i], size - 1)
      invariant cuts == CutsOfLog(log[..i], size - 1)
    {
      assert Front(log[..i + 1]) == log[..i];
      SameDepth(log[..i], size - 1);
      var line := log[i];
      if line.StartOneOf? {
        currentOneOf := currentOneOf + [-1];
      } else if line.ReadByte? {
        lastRead := line.pos;
        if |currentOneOf| > 0 && currentOneOf[|currentOneOf| - 1] == -1 {
          currentOneOf := currentOneOf[|currentOneOf| - 1 := lastRead];
        }
      } else if line.FinishOneOf? {
        cuts := cuts + [(currentOneOf[|currentOneOf| - 1], lastRead)];
        currentOneOf := currentOneOf[..|currentOneOf| - 1];
      }
    }
    assert log[..|log|] == log;
  }

  // ----- what the cuts are

  ghost predicate ReadIn(log: seq<Event>, lo: int, hi: int) {
    exists j :: lo < j < hi && 0 <= j < |log| && log[j].ReadByte?
  }

  /** Every call reads a byte before it makes a nested call and before it ends. */
  ghost predicate ReadsFirst(log: seq<Event>) {
    forall k :: 0 <= k < |log| && (log[k].StartOneOf? || log[k].FinishOneOf?) && Opens(log[..k]) != []
      ==> ReadIn(log, Last(Opens(log[..k])), k)
  }

  /** The call started at log line `s` is finished at line `k`. */
  ghost predicate IsCall(log: seq<Event>, s: nat, k: nat) {
    k < |log| && log[k].FinishOneOf? && Opens(log[..k]) != [] && Last(Opens(log[..k])) == s
  }

  /** The cut holds exactly the positions read between lines `s` and `k`, and its
      ends are two of them. */
  ghost predicate Covers(log: seq<Event>, s: nat, k: nat, c: Cut) {
    && (exists j :: s < j < k < |log| && log[j].ReadByte? && log[j].pos == c.0)
    && (exists j :: s < j < k < |log| && log[j].ReadByte? && log[j].pos == c.1)
    && forall j :: 0 <= j < |log| && log[j].ReadByte? ==> (c.0 <= log[j].pos <= c.1 <==> s < j < k)
  }

  /** `v` is the first position read after line `s`, or -1. */
  ghost predicate FirstRead(log: seq<Event>, s: nat, v: int) {
    if !ReadIn(log, s, |log|) then v == -1
    else exists j :: s < j < |log| && log[j].ReadByte? && log[j].pos == v
                     && forall m :: s < m < j ==> !log[m].ReadByte?
  }

  /** `v` is the last position read. */
  ghost predicate IsLastRead(log: seq<Event>, v: int) {
    exists j :: 0 <= j < |log| && log[j].ReadByte? && log[j].pos == v
                && forall m :: j < m < |log| ==> !log[m].ReadByte?
  }

  lemma FrontPrefix(log: seq<Event>, k: nat)
    requires log != [] && k < |log|
    ensures Front(log)[..k] == log[..k]
  {
  }

  lemma {:induction false} OpensBound(log: seq<Event>)
    ensures forall d :: 0 <= d < |Opens(log)| ==> Opens(log)[d] < |log| && log[Opens(log)[d]].StartOneOf?
    ensures forall c, d :: 0 <= c < d < |Opens(log)| ==> Opens(log)[c] < Opens(log)[d]
  {
    if log != [] {
      OpensBound(Front(log));
    }
  }

  lemma FirstReadStep(log: seq<Event>, s: nat, v: int)
    requires log != [] && s < |log| - 1 && FirstRead(Front(log), s, v)
    ensures !Last(log).ReadByte? ==> FirstRead(log, s, v)
    ensures Last(log).ReadByte? && v != -1 ==> FirstRead(log, s, v)
    ensures Last(log).ReadByte? && v == -1 ==> FirstRead(log, s, Last(log).pos)
  {
    var front := Front(log);
    assert forall j :: 0 <= j < |front| ==> front[j] == log[j];
    if ReadIn(front, s, |front|) {
      var j :| s < j < |front| && front[j].ReadByte? && front[j].pos == v
        && forall m :: s < m < j ==> !front[m].ReadByte?;
      assert log[j].ReadByte?;
      assert ReadIn(log, s, |log|);
    } else if Last(log).ReadByte? {
      assert log[|log| - 1].ReadByte?;
      assert ReadIn(log, s, |log|);
    }
  }

  /** The stack holds, for every open call, the first position read in it; only the
      innermost call can still be without one. */
  ghost predicate StackHolds(log: seq<Event>, opens: seq<nat>, open: seq<int>) {
    && |open| == |opens|
    && (forall d :: 0 <= d < |opens| ==> FirstRead(log, opens[d], open[d]))
    && (forall d :: 0 <= d < |opens| - 1 ==> open[d] != -1)
  }

  lemma StackReads(log: seq<Event>, opens: seq<nat>, open: seq<int>)
    requires log != [] && Last(log).ReadByte? && StackHolds(Front(log), opens, open)
    requires forall d :: 0 <= d < |opens| ==> opens[d] < |log| - 1
    ensures StackHolds(log, opens, if open != [] && Last(open) == -1 then open[|open| - 1 := Last(log).pos] else open)
  {
    var pos := Last(log).pos;
    var now := if open != [] && Last(open) == -1 then open[|open| - 1 := pos] else open;
    forall d | 0 <= d < |opens|
      ensures FirstRead(log, opens[d], now[d])
      ensures d < |opens| - 1 ==> now[d] != -1
    {
      StackReadsAt(log, opens[d], open[d], pos);
      if d < |opens| - 1 {
        assert open[d] != -1 && now[d] == open[d];
      } else {
        assert now[d] == if open[d] == -1 then pos else open[d];
      }
    }
  }

  lemma StackReadsAt(log: seq<Event>, s: nat, v: int, pos: nat)
    requires log != [] && Last(log) == ReadByte(pos) && s < |log| - 1 && FirstRead(Front(log), s, v)
    ensures FirstRead(log, s, if v == -1 then pos else v)
  {
    FirstReadStep(log, s, v);
  }

  lemma StackWaits(log: seq<Event>, opens: seq<nat>, open: seq<int>)
    requires log != [] && !Last(log).ReadByte? && StackHolds(Front(log), opens, open)
    requires forall d :: 0 <= d < |opens| ==> opens[d] < |log| - 1
    ensures StackHolds(log, opens, open)
  {
    forall d | 0 <= d < |opens|
      ensures FirstRead(log, opens[d], open[d])
    {
      FirstReadStep(log, opens[d], open[d]);
    }
  }

  /** A new call is entered only after the enclosing one has read. */
  lemma StackStarts(log: seq<Event>, opens: seq<nat>, open: seq<int>)
    requires log != [] && Last(log).StartOneOf? && StackHolds(log, opens, open)
    requires opens != [] ==> Last(opens) < |log| - 1 && ReadIn(log, Last(opens), |log| - 1)
    ensures StackHolds(log, opens + [|log| - 1], open + [-1])
  {
    if opens != [] {
      ReadInWiderRight(log, Last(opens), |log| - 1);
      assert FirstRead(log, opens[|opens| - 1], open[|opens| - 1]);
    }
    assert !ReadIn(log, |log| - 1, |log|);
  }

  lemma ReadInWiderRight(log: seq<Event>, lo: int, hi: int)
    requires ReadIn(log, lo, hi) && hi <= |log|
    ensures ReadIn(log, lo, |log|)
  {
  }

  lemma StackStep(log: seq<Event>, opens: seq<nat>, sc: Scan)
    requires log != [] && opens == Opens(Front(log)) && StackHolds(Front(log), opens, sc.open)
    requires forall d :: 0 <= d < |opens| ==> opens[d] < |log| - 1
    requires Last(log).StartOneOf? && opens != [] ==> ReadIn(log, Last(opens), |log| - 1)
    ensures StackHolds(log, Opens(log), Advance(sc, Last(log)).open)
  {
    if Last(log).ReadByte? {
      StackReads(log, opens, sc.open);
    } else {
      StackWaits(log, opens, sc.open);
      if Last(log).StartOneOf? {
        StackStarts(log, opens, sc.open);
      }
    }
  }

  lemma {:induction false} StackHoldsFirstReads(log: seq<Event>, lastByte: int)
    requires ReadsFirst(log)
    ensures StackHolds(log, Opens(log), ScanLog(log, lastByte).open)
  {
    if log != [] {
      var front := Front(log);
      ReadsFirstFront(log);
      StackHoldsFirstReads(front, lastByte);
      OpensBound(front);
      assert log[..|log| - 1] == front;
      StackStep(log, Opens(front), ScanLog(front, lastByte));
    }
  }

  lemma {:induction false} LastReadIsLast(log: seq<Event>, lastByte: int)
    ensures ReadIn(log, -1, |log|) ==> IsLastRead(log, ScanLog(log, lastByte).lastRead)
  {
    if log != [] {
      LastReadIsLast(Front(log), lastByte);
      LastReadStep(log, lastByte);
    }
  }

  lemma ReadsFirstFront(log: seq<Event>)
    requires log != [] && ReadsFirst(log)
    ensures ReadsFirst(Front(log))
  {
    var front := Front(log);
    forall k | 0 <= k < |front| && (front[k].StartOneOf? || front[k].FinishOneOf?) && Opens(front[..k]) != []
      ensures ReadIn(front, Last(Opens(front[..k])), k)
    {
      FrontPrefix(log, k);
      assert log[k] == front[k];
      var j :| Last(Opens(log[..k])) < j < k && 0 <= j < |log| && log[j].ReadByte?;
      assert front[j].ReadByte?;
    }
  }

  lemma LastReadStep(log: seq<Event>, lastByte: int)
    requires log != []
    requires ReadIn(Front(log), -1, |log| - 1) ==> IsLastRead(Front(log), ScanLog(Front(log), lastByte).lastRead)
    ensures ReadIn(log, -1, |log|) ==> IsLastRead(log, ScanLog(log, lastByte).lastRead)
  {
    var front := Front(log);
    if ReadIn(log, -1, |log|) {
      if Last(log).ReadByte? {
        assert log[|log| - 1].ReadByte?;
      } else {
        var j :| -1 < j < |log| && log[j].ReadByte?;
        assert front[j].ReadByte?;
        assert ReadIn(front, -1, |front|);
        var v := ScanLog(front, lastByte).lastRead;
        var m :| 0 <= m < |front| && front[m].ReadByte? && front[m].pos == v
                 && forall n :: m < n < |front| ==> !front[n].ReadByte?;
        assert log[m].ReadByte?;
      }
    }
  }

  /** Positions are read in increasing order. */
  ghost predicate ReadsIncrease(log: seq<Event>) {
    forall j, k :: 0 <= j < k < |log| && log[j].ReadByte? && log[k].ReadByte? ==> log[j].pos < log[k].pos
  }

  /** The cut recorded when a call finishes holds exactly what the call read. */
  lemma FinishedCut(log: seq<Event>, lastByte: int, s: nat, k: nat)
    requires ReadsFirst(log) && ReadsIncrease(log) && IsCall(log, s, k)
    ensures var sc := ScanLog(log[..k], lastByte);
      sc.open != [] && Covers(log, s, k, (Last(sc.open), sc.lastRead))
  {
    PrefixReadsFirst(log, k);
    HeadReads(log, s, k);
    var sc := ScanLog(log[..k], lastByte);
    TopIsFirstRead(log[..k], lastByte, sc, s);
    EndsCover(log, s, k, Last(sc.open), sc.lastRead);
  }

  /** A call that ends at line `k` has read a byte by then. */
  lemma HeadReads(log: seq<Event>, s: nat, k: nat)
    requires ReadsFirst(log) && IsCall(log, s, k)
    ensures ReadIn(log[..k], s, k)
  {
    var r :| s < r < k && 0 <= r < |log| && log[r].ReadByte?;
    assert log[..k][r].ReadByte?;
  }

  lemma TopIsFirstRead(head: seq<Event>, lastByte: int, sc: Scan, s: nat)
    requires ReadsFirst(head) && sc == ScanLog(head, lastByte)
    requires Opens(head) != [] && Last(Opens(head)) == s && ReadIn(head, s, |head|)
    ensures sc.open != [] && FirstRead(head, s, Last(sc.open)) && IsLastRead(head, sc.lastRead)
  {
    StackHoldsFirstReads(head, lastByte);
    LastReadIsLast(head, lastByte);
  }

  lemma EndsCover(log: seq<Event>, s: nat, k: nat, first: int, last: int)
    requires ReadsIncrease(log) && s < k < |log| && ReadIn(log[..k], s, k)
    requires FirstRead(log[..k], s, first) && IsLastRead(log[..k], last)
    ensures Covers(log, s, k, (first, last))
  {
    var head := log[..k];
    var a :| s < a < k && head[a].ReadByte? && head[a].pos == first && forall m :: s < m < a ==> !head[m].ReadByte?;
    var b :| 0 <= b < k && head[b].ReadByte? && head[b].pos == last && forall m :: b < m < k ==> !head[m].ReadByte?;
    assert log[a] == head[a] && log[b] == head[b] && a <= b;
    forall j | 0 <= j < |log| && log[j].ReadByte?
      ensures first <= log[j].pos <= last <==> s < j < k
    {
      if s < j < k {
        assert head[j] == log[j];
        assert a <= j <= b;
      }
    }
  }

  lemma {:induction false} PrefixReadsFirst(log: seq<Event>, k: nat)
    requires ReadsFirst(log) && k <= |log|
    ensures ReadsFirst(log[..k])
    decreases |log|
  {
    if k == |log| {
      assert log[..k] == log;
    } else {
      ReadsFirstFront(log);
      PrefixReadsFirst(Front(log), k);
      assert Front(log)[..k] == log[..k];
    }
  }

  /** The finished call that a cut among the first `n` lines stems from. */
  lemma {:induction false} CallOf(log: seq<Event>, lastByte: int, n: nat, c: Cut) returns (s: nat, k: nat)
    requires ReadsFirst(log) && ReadsIncrease(log) && n <= |log| && c in CutsOfLog(log[..n], lastByte)
    ensures IsCall(log, s, k) && Covers(log, s, k, c)
    decreases n
  {
    k := n - 1;
    assert Front(log[..n]) == log[..k] && Last(log[..n]) == log[k];
    if c in CutsOfLog(log[..k], lastByte) {
      s, k := CallOf(log, lastByte, k, c);
    } else {
      SameDepth(log[..k], lastByte);
      s := Last(Opens(log[..k]));
      FinishedCut(log, lastByte, s, k);
    }
  }

  lemma NewCut(log: seq<Event>, lastByte: int, c: Cut)
    requires log != [] && Last(log).FinishOneOf? && ScanLog(Front(log), lastByte).open != []
    requires c == (Last(ScanLog(Front(log), lastByte).open), ScanLog(Front(log), lastByte).lastRead)
    ensures c in CutsOfLog(log, lastByte)
  {
    var cuts := CutsOfLog(log, lastByte);
    assert cuts[|cuts| - 1] == c;
  }

  /** Cuts stay when the log goes on. */
  lemma {:induction false} CutsRemain(log: seq<Event>, lastByte: int, n: nat, c: Cut)
    requires n <= |log| && c in CutsOfLog(log[..n], lastByte)
    ensures c in CutsOfLog(log, lastByte)
    decreases |log|
  {
    if n == |log| {
      assert log[..n] == log;
    } else {
      assert Front(log)[..n] == log[..n];
      CutsRemain(Front(log), lastByte, n, c);
    }
  }

  /** The cut of a finished call. */
  lemma CutOf(log: seq<Event>, lastByte: int, s: nat, k: nat) returns (c: Cut)
    requires ReadsFirst(log) && ReadsIncrease(log) && IsCall(log, s, k)
    ensures c in CutsOfLog(log, lastByte) && Covers(log, s, k, c)
  {
    FinishedCut(log, lastByte, s, k);
    c := CutHere(log, lastByte, log[..k + 1], k);
    CutsRemain(log, lastByte, k + 1, c);
  }

  lemma CutHere(log: seq<Event>, lastByte: int, head: seq<Event>, k: nat) returns (c: Cut)
    requires k < |log| && log[k].FinishOneOf? && ScanLog(log[..k], lastByte).open != [] && head == log[..k + 1]
    ensures var sc := ScanLog(log[..k], lastByte); c == (Last(sc.open), sc.lastRead)
    ensures c in CutsOfLog(head, lastByte)
  {
    var sc := ScanLog(log[..k], lastByte);
    assert Front(head) == log[..k] && Last(head) == log[k];
    c := (Last(sc.open), sc.lastRead);
    NewCut(head, lastByte, c);
  }

  /** The trace parser is exact: every cut is the interval of positions read inside
      one finished call, and every finished call has its cut. */
  lemma StructureExact(log: seq<Event>, lastByte: int)
    requires ReadsFirst(log) && ReadsIncrease(log)
    ensures forall c :: c in CutsOfLog(log, lastByte) ==>
      exists s: nat, k: nat :: IsCall(log, s, k) && Covers(log, s, k, c)
    ensures forall s: nat, k: nat :: IsCall(log, s, k) ==>
      exists c :: c in CutsOfLog(log, lastByte) && Covers(log, s, k, c)
  {
    assert log[..|log|] == log;
    forall c | c in CutsOfLog(log, lastByte)
      ensures exists s: nat, k: nat :: IsCall(log, s, k) && Covers(log, s, k, c)
    {
      var s, k := CallOf(log, lastByte, |log|, c);
    }
    forall s: nat, k: nat | IsCall(log, s, k)
      ensures exists c :: c in CutsOfLog(log, lastByte) && Covers(log, s, k, c)
    {
      var c := CutOf(log, lastByte, s, k);
    }
  }

  // ----- when the cut of a call is exact

  /** Line `j` reads while the call started at line `s` is the innermost one. */
  ghost predicate OwnRead(log: seq<Event>, s: nat, j: int) {
    s < j < |log| && log[j].ReadByte? && Opens(log[..j]) != [] && Last(Opens(log[..j])) == s
  }

  /** `v` is the first position that the call reads itself, or -1. */
  ghost predicate FirstOwn(log: seq<Event>, s: nat, v: int) {
    if v == -1 then forall j :: !OwnRead(log, s, j)
    else exists j :: OwnRead(log, s, j) && log[j].pos == v && forall m :: m < j ==> !OwnRead(log, s, m)
  }

  lemma OwnReadFront(log: seq<Event>, s: nat, j: int)
    requires log != [] && j < |log| - 1
    ensures OwnRead(log, s, j) <==> OwnRead(Front(log), s, j)
  {
    if 0 <= j {
      assert Front(log)[..j] == log[..j] && Front(log)[j] == log[j];
    }
  }

  lemma FirstOwnStays(log: seq<Event>, s: nat, v: int)
    requires log != [] && FirstOwn(Front(log), s, v) && (v != -1 || !OwnRead(log, s, |log| - 1))
    ensures FirstOwn(log, s, v)
  {
    forall j | j < |log| - 1
      ensures OwnRead(log, s, j) <==> OwnRead(Front(log), s, j)
    {
      OwnReadFront(log, s, j);
    }
    if v != -1 {
      var j :| OwnRead(Front(log), s, j) && Front(log)[j].pos == v && forall m :: m < j ==> !OwnRead(Front(log), s, m);
      assert OwnRead(log, s, j) && log[j].pos == v;
    }
  }

  lemma FirstOwnComes(log: seq<Event>, s: nat)
    requires log != [] && FirstOwn(Front(log), s, -1) && OwnRead(log, s, |log| - 1)
    ensures FirstOwn(log, s, Last(log).pos)
  {
    forall m | m < |log| - 1
      ensures !OwnRead(log, s, m)
    {
      OwnReadFront(log, s, m);
    }
  }

  /** The stack holds, for every open call, the first position that it reads itself. */
  ghost predicate StackOwns(log: seq<Event>, opens: seq<nat>, open: seq<int>) {
    |open| == |opens| && forall d :: 0 <= d < |opens| ==> FirstOwn(log, opens[d], open[d])
  }

  lemma {:induction false} StackHoldsOwn(log: seq<Event>, lastByte: int)
    ensures StackOwns(log, Opens(log), ScanLog(log, lastByte).open)
  {
    if log != [] {
      var front := Front(log);
      StackHoldsOwn(front, lastByte);
      OpensBound(front);
      assert log[..|log| - 1] == front;
      OwnStep(log, Opens(front), ScanLog(front, lastByte));
    }
  }

  lemma OwnStep(log: seq<Event>, opens: seq<nat>, sc: Scan)
    requires log != [] && opens == Opens(Front(log)) && log[..|log| - 1] == Front(log)
    requires StackOwns(Front(log), opens, sc.open) && forall d :: 0 <= d < |opens| ==> opens[d] < |log| - 1
    requires forall c, d :: 0 <= c < d < |opens| ==> opens[c] < opens[d]
    ensures StackOwns(log, Opens(log), Advance(sc, Last(log)).open)
  {
    if Last(log).ReadByte? {
      forall d | 0 <= d < |opens|
        ensures OwnRead(log, opens[d], |log| - 1) <==> d == |opens| - 1
      {
        TopReads(log, opens, d);
      }
      OwnReads(log, opens, sc.open);
    } else {
      OwnWaits(log, opens, sc.open);
      if Last(log).StartOneOf? {
        NothingOwn(log, |log| - 1);
      }
    }
  }

  lemma NothingOwn(log: seq<Event>, s: nat)
    requires s + 1 >= |log|
    ensures FirstOwn(log, s, -1)
  {
  }

  /** The innermost call is the one that reads. */
  lemma TopReads(log: seq<Event>, opens: seq<nat>, d: nat)
    requires log != [] && Last(log).ReadByte? && opens == Opens(log[..|log| - 1]) && d < |opens|
    requires opens[d] < |log| - 1 && forall c, d :: 0 <= c < d < |opens| ==> opens[c] < opens[d]
    ensures OwnRead(log, opens[d], |log| - 1) <==> d == |opens| - 1
  {
  }

  lemma OwnReads(log: seq<Event>, opens: seq<nat>, open: seq<int>)
    requires log != [] && Last(log).ReadByte? && StackOwns(Front(log), opens, open)
    requires forall d :: 0 <= d < |opens| ==> (OwnRead(log, opens[d], |log| - 1) <==> d == |opens| - 1)
    ensures StackOwns(log, opens, if open != [] && Last(open) == -1 then open[|open| - 1 := Last(log).pos] else open)
  {
    var pos := Last(log).pos;
    var now := if open != [] && Last(open) == -1 then open[|open| - 1 := pos] else open;
    forall d | 0 <= d < |opens|
      ensures FirstOwn(log, opens[d], now[d])
    {
      OwnReadsAt(log, opens[d], open[d], d == |opens| - 1);
      assert now[d] == if d == |opens| - 1 && open[d] == -1 then pos else open[d];
    }
  }

  lemma OwnReadsAt(log: seq<Event>, s: nat, v: int, top: bool)
    requires log != [] && Last(log).ReadByte? && FirstOwn(Front(log), s, v) && (OwnRead(log, s, |log| - 1) <==> top)
    ensures FirstOwn(log, s, if top && v == -1 then Last(log).pos else v)
  {
    if top && v == -1 {
      FirstOwnComes(log, s);
    } else {
      FirstOwnStays(log, s, v);
    }
  }

  lemma OwnWaits(log: seq<Event>, opens: seq<nat>, open: seq<int>)
    requires log != [] && !Last(log).ReadByte? && StackOwns(Front(log), opens, open)
    ensures StackOwns(log, opens, open)
  {
    forall d | 0 <= d < |opens|
      ensures FirstOwn(log, opens[d], open[d])
    {
      FirstOwnStays(log, opens[d], open[d]);
    }
  }

  /** The cut recorded when the call that ends at line `k` is finished. */
  function CutAt(log: seq<Event>, lastByte: int, k: nat): Cut
    requires k <= |log| && ScanLog(log[..k], lastByte).open != []
  {
    var sc := ScanLog(log[..k], lastByte);
    (Last(sc.open), sc.lastRead)
  }

  /** The first byte read during the call is read by the call itself. */
  ghost predicate ReadsItself(log: seq<Event>, s: nat, k: nat) {
    exists j :: j < k && OwnRead(log, s, j) && forall m :: s < m < j && m < |log| ==> !log[m].ReadByte?
  }

  /** The cut of a finished call holds exactly what the call read if and only if the
      call itself reads the first byte, and not one nested in it. */
  lemma CallCutExactly(log: seq<Event>, lastByte: int, s: nat, k: nat)
    requires ReadsIncrease(log) && IsCall(log, s, k)
    ensures ScanLog(log[..k], lastByte).open != []
    ensures Covers(log, s, k, CutAt(log, lastByte, k)) <==> ReadsItself(log, s, k)
  {
    var head := log[..k];
    SameDepth(head, lastByte);
    StackHoldsOwn(head, lastByte);
    LastReadIsLast(head, lastByte);
    var sc := ScanLog(head, lastByte);
    assert FirstOwn(head, s, Last(sc.open)) by {
      assert Opens(head)[|Opens(head)| - 1] == s;
    }
    forall j | j < k
      ensures OwnRead(log, s, j) <==> OwnRead(head, s, j)
    {
      if 0 <= j {
        assert head[..j] == log[..j] && head[j] == log[j];
      }
    }
    if ReadsItself(log, s, k) {
      ItselfCovers(log, s, k, Last(sc.open), sc.lastRead);
    }
    if Covers(log, s, k, (Last(sc.open), sc.lastRead)) {
      CoversItself(log, s, k, Last(sc.open), sc.lastRead);
    }
  }

  lemma ItselfCovers(log: seq<Event>, s: nat, k: nat, first: int, last: int)
    requires ReadsIncrease(log) && s < k < |log| && ReadsItself(log, s, k)
    requires forall j :: j < k ==> (OwnRead(log, s, j) <==> OwnRead(log[..k], s, j))
    requires FirstOwn(log[..k], s, first) && (ReadIn(log[..k], -1, k) ==> IsLastRead(log[..k], last))
    ensures Covers(log, s, k, (first, last))
  {
    ItselfIsFirst(log, log[..k], s, k, first);
    EndsCover(log, s, k, first, last);
  }

  lemma ItselfIsFirst(log: seq<Event>, head: seq<Event>, s: nat, k: nat, first: int)
    requires s < k < |log| && head == log[..k] && ReadsItself(log, s, k) && FirstOwn(head, s, first)
    requires forall j :: j < k ==> (OwnRead(log, s, j) <==> OwnRead(head, s, j))
    ensures FirstRead(head, s, first) && ReadIn(head, s, k) && ReadIn(head, -1, k)
  {
    var j :| j < k && OwnRead(log, s, j) && forall m :: s < m < j && m < |log| ==> !log[m].ReadByte?;
    assert head[j] == log[j] && OwnRead(head, s, j);
    assert forall m :: s < m < j ==> head[m] == log[m] && !OwnRead(head, s, m);
    assert log[j].pos == first;
  }

  lemma CoversItself(log: seq<Event>, s: nat, k: nat, first: int, last: int)
    requires ReadsIncrease(log) && k < |log| && Covers(log, s, k, (first, last))
    requires forall j :: j < k ==> (OwnRead(log, s, j) <==> OwnRead(log[..k], s, j))
    requires FirstOwn(log[..k], s, first)
    ensures ReadsItself(log, s, k)
  {
    var i :| s < i < k < |log| && log[i].ReadByte? && log[i].pos == first;
    var j :| OwnRead(log[..k], s, j) && log[..k][j].pos == first;
    assert OwnRead(log, s, j) && log[j].pos == first;
    forall m | s < m < j && m < |log|
      ensures !log[m].ReadByte?
    {
    }
  }

  /** A call open at line `k` was open at line `j`, or was started since. */
  lemma {:induction false} OpenSince(log: seq<Event>, j: nat, k: nat)
    requires j <= k <= |log|
    ensures forall x :: x in Opens(log[..k]) ==> x in Opens(log[..j]) || j <= x
    decreases k
  {
    if j < k {
      OpenSince(log, j, k - 1);
      assert Front(log[..k]) == log[..k - 1];
    }
  }

  lemma CallsNest(log: seq<Event>, s: nat, k: nat, t: nat, m: nat)
    requires IsCall(log, s, k) && IsCall(log, t, m) && k < m
    ensures t < s || k < t
  {
    OpensBound(log[..k]);
    OpensBound(log[..m]);
    OpenSince(log, k + 1, m);
    assert Front(log[..k + 1]) == log[..k];
    assert t in Opens(log[..m]);
    if t < k + 1 {
      var before := Opens(log[..k]);
      assert Opens(log[..k + 1]) == before[..|before| - 1];
      var d :| 0 <= d < |before| - 1 && before[d] == t;
    }
  }

  ghost predicate Within(c: Cut, d: Cut) {
    d.0 <= c.0 && c.1 <= d.1
  }

  /** The cuts form a laminar family: any two are nested or disjoint. */
  lemma CutsAreLaminar(log: seq<Event>, lastByte: int, c: Cut, d: Cut)
    requires ReadsFirst(log) && ReadsIncrease(log)
    requires c in CutsOfLog(log, lastByte) && d in CutsOfLog(log, lastByte)
    ensures Within(c, d) || Within(d, c) || c.1 < d.0 || d.1 < c.0
  {
    assert log[..|log|] == log;
    var s, k := CallOf(log, lastByte, |log|, c);
    var t, m := CallOf(log, lastByte, |log|, d);
    if k <= m {
      CallsOrder(log, s, k, c, t, m, d);
    } else {
      CallsOrder(log, t, m, d, s, k, c);
    }
  }

  lemma CallsOrder(log: seq<Event>, s: nat, k: nat, c: Cut, t: nat, m: nat, d: Cut)
    requires ReadsIncrease(log) && IsCall(log, s, k) && IsCall(log, t, m) && k <= m
    requires Covers(log, s, k, c) && Covers(log, t, m, d)
    ensures Within(c, d) || c.1 < d.0
  {
    if k < m {
      CallsNest(log, s, k, t, m);
    }
    CoversOrder(log, s, k, c, t, m, d);
  }

  lemma CoversOrder(log: seq<Event>, s: nat, k: nat, c: Cut, t: nat, m: nat, d: Cut)
    requires ReadsIncrease(log) && Covers(log, s, k, c) && Covers(log, t, m, d)
    requires k <= m && (t <= s || k < t)
    ensures if t <= s then Within(c, d) else c.1 < d.0
  {
    var b :| s < b < k < |log| && log[b].ReadByte? && log[b].pos == c.1;
    if t <= s {
      var a :| s < a < k < |log| && log[a].ReadByte? && log[a].pos == c.0;
      assert d.0 <= log[a].pos <= d.1 && d.0 <= log[b].pos <= d.1;
    } else {
      var x :| t < x < m < |log| && log[x].ReadByte? && log[x].pos == d.0;
      assert log[b].pos < log[x].pos;
    }
  }

  /** Conversion lines play no part in the structure. */
  lemma {:induction false} TraceKeepsStructure(log: seq<Event>, lastByte: int)
    ensures ScanLog(Trace(log), lastByte) == ScanLog(log, lastByte)
    ensures CutsOfLog(Trace(log), lastByte) == CutsOfLog(log, lastByte)
  {
    if log != [] {
      var e := Last(log);
      TraceKeepsStructure(Front(log), lastByte);
      assert log == Front(log) + [e];
      TraceConcat(Front(log), [e]);
      assert [e][1..] == [];
      var t := Trace(log);
      if !e.Converting? {
        assert t == Trace(Front(log)) + [e];
        assert Front(t) == Trace(Front(log)) && Last(t) == e;
      } else {
        assert t == Trace(Front(log));
      }
    }
  }

  // ----- every run is bracketed

  function Shift(d: nat, e: Event): nat {
    if e.StartOneOf? then d + 1 else if e.FinishOneOf? && d > 0 then d - 1 else d
  }

  function DepthAfter(d: nat, log: seq<Event>): nat
    decreases |log|
  {
    if log == [] then d else DepthAfter(Shift(d, log[0]), log[1..])
  }

  predicate NeverBelow(d: nat, log: seq<Event>)
    decreases |log|
  {
    log == [] || ((log[0].FinishOneOf? ==> d > 0) && NeverBelow(Shift(d, log[0]), log[1..]))
  }

  lemma {:induction false} DepthConcat(d: nat, a: seq<Event>, b: seq<Event>)
    ensures DepthAfter(d, a + b) == DepthAfter(DepthAfter(d, a), b)
    ensures NeverBelow(d, a + b) <==> NeverBelow(d, a) && NeverBelow(DepthAfter(d, a), b)
    decreases |a|
  {
    if a == [] {
      assert a + b == b;
    } else {
      assert (a + b)[1..] == a[1..] + b;
      DepthConcat(Shift(d, a[0]), a[1..], b);
    }
  }

  ghost predicate KeepsDepth(req: Request, log: seq<Event>) {
    forall d: nat :: (req.LeaveOneOf? ==> d > 0) ==> NeverBelow(d, log) && DepthAfter(d, log) == Depth(req, d)
  }

  lemma {:induction false} PlainLog(d: nat, log: seq<Event>)
    requires forall k :: 0 <= k < |log| ==> !log[k].StartOneOf? && !log[k].FinishOneOf?
    ensures NeverBelow(d, log) && DepthAfter(d, log) == d
  {
    if log != [] {
      PlainLog(d, log[1..]);
    }
  }

  lemma AnswerKeepsDepth(req: Request, tape: seq<byte>, i: nat)
    ensures Answer(req, tape, i).Reply? ==> KeepsDepth(req, Answer(req, tape, i).log)
  {
    var a := Answer(req, tape, i);
    if a.Reply? {
      forall d: nat | req.LeaveOneOf? ==> d > 0
        ensures NeverBelow(d, a.log) && DepthAfter(d, a.log) == Depth(req, d)
      {
        if req.EnterOneOf? || req.LeaveOneOf? {
          assert a.log[1..] == [];
        } else {
          PlainLog(d, a.log);
        }
      }
    }
  }

  lemma {:induction false} RunFromKeepsDepth(p: Program, f: Server, i: nat, depth: nat)
    requires forall req, j: nat :: f(req, j).Reply? ==> KeepsDepth(req, f(req, j).log)
    ensures NeverBelow(depth, RunFrom(p, f, i, depth).log)
    decreases p
  {
    if p.Call? && !(p.req.LeaveOneOf? && depth == 0) && f(p.req, i).Reply? {
      var a, d := f(p.req, i), Depth(p.req, depth);
      assert KeepsDepth(p.req, a.log);
      if a.value in p.next {
        RunFromKeepsDepth(p.next[a.value], f, i + a.used, d);
      }
      DepthConcat(depth, a.log, Resume(p, a.value, f, i + a.used, d).log);
    }
  }

  lemma {:induction false} OpensDepth(log: seq<Event>)
    requires NeverBelow(0, log)
    ensures |Opens(log)| == DepthAfter(0, log)
    ensures Bracketed(log)
  {
    if log != [] {
      var e := Last(log);
      assert log == Front(log) + [e] && [e][1..] == [];
      DepthConcat(0, Front(log), [e]);
      OpensDepth(Front(log));
      forall k | 0 <= k < |log| && log[k].FinishOneOf?
        ensures Opens(log[..k]) != []
      {
        if k < |log| - 1 {
          FrontPrefix(log, k);
          assert Front(log)[k] == log[k];
        }
      }
    }
  }

  lemma RunIsBracketed(p: Program, tape: seq<byte>)
    ensures Bracketed(Execute(p, tape).log)
  {
    forall req, j: nat
      ensures Answer(req, tape, j).Reply? ==> KeepsDepth(req, Answer(req, tape, j).log)
    {
      AnswerKeepsDepth(req, tape, j);
    }
    RunFromKeepsDepth(p, Serve(tape), 0, 0);
    OpensDepth(Execute(p, tape).log);
  }

  /** The cuts of a run whose calls read first are proper intervals. */
  lemma RunCutsAreProper(p: Program, tape: seq<byte>, lastByte: int, c: Cut)
    requires ReadsFirst(Execute(p, tape).log) && c in CutsOfLog(Execute(p, tape).log, lastByte)
    ensures 0 <= c.0 <= c.1
  {
    var log := Execute(p, tape).log;
    ExecuteIncreasing(p, tape);
    assert ReadsIncrease(log);
    assert log[..|log|] == log;
    var s, k := CallOf(log, lastByte, |log|, c);
    var j :| s < j < k < |log| && log[j].ReadByte? && log[j].pos == c.0;
  }

  /** Every call that ends does so after some byte has been read. */
  ghost predicate EndsAfterRead(log: seq<Event>) {
    log != [] ==>
      && EndsAfterRead(Front(log))
      && (Last(log).FinishOneOf? && Opens(Front(log)) != [] ==> ReadIn(Front(log), -1, |log| - 1))
  }

  /** The cuts do not depend on what the positions default to exactly when calls end
      after a read; the last position does not once there is a read. */
  lemma {:induction false} DefaultUnused(log: seq<Event>, a: int, b: int)
    ensures ScanLog(log, a).open == ScanLog(log, b).open && |CutsOfLog(log, a)| == |CutsOfLog(log, b)|
    ensures EndsAfterRead(log) ==> CutsOfLog(log, a) == CutsOfLog(log, b)
    ensures a != b && CutsOfLog(log, a) == CutsOfLog(log, b) ==> EndsAfterRead(log)
    ensures if ReadIn(log, -1, |log|) then ScanLog(log, a).lastRead == ScanLog(log, b).lastRead
            else ScanLog(log, a).lastRead == a && ScanLog(log, b).lastRead == b
  {
    if log != [] {
      var front := Front(log);
      DefaultUnused(front, a, b);
      SameDepth(front, a);
      SomeReadStep(log);
      CutsStep(log, a, b);
    }
  }

  lemma SomeReadStep(log: seq<Event>)
    requires log != []
    ensures ReadIn(log, -1, |log|) <==> Last(log).ReadByte? || ReadIn(Front(log), -1, |log| - 1)
  {
    assert Last(log).ReadByte? ==> log[|log| - 1].ReadByte?;
    assert forall j :: 0 <= j < |log| - 1 ==> Front(log)[j] == log[j];
  }

  /** Rows of cuts are the same when their beginnings and their ends are. */
  lemma CutsStep(log: seq<Event>, a: int, b: int)
    requires log != [] && |CutsOfLog(Front(log), a)| == |CutsOfLog(Front(log), b)|
    requires ScanLog(Front(log), a).open == ScanLog(Front(log), b).open
    ensures |CutsOfLog(log, a)| == |CutsOfLog(log, b)|
    ensures CutsOfLog(log, a) == CutsOfLog(log, b) <==>
      && CutsOfLog(Front(log), a) == CutsOfLog(Front(log), b)
      && (Last(log).FinishOneOf? && ScanLog(Front(log), a).open != [] ==>
            ScanLog(Front(log), a).lastRead == ScanLog(Front(log), b).lastRead)
  {
    var x, y := CutsOfLog(Front(log), a), CutsOfLog(Front(log), b);
    var u, v := ScanLog(Front(log), a), ScanLog(Front(log), b);
    if Last(log).FinishOneOf? && u.open != [] {
      var c, d := (Last(u.open), u.lastRead), (Last(v.open), v.lastRead);
      assert (x + [c])[..|x|] == x && (y + [d])[..|y|] == y;
      assert (x + [c])[|x|] == c && (y + [d])[|y|] == d;
    } else {
      assert CutsOfLog(log, a) == x && CutsOfLog(log, b) == y;
    }
  }

  /** Calls that read first end after a read. */
  lemma {:induction false} ReadsFirstEnds(log: seq<Event>)
    requires ReadsFirst(log)
    ensures EndsAfterRead(log)
  {
    if log != [] {
      var front := Front(log);
      ReadsFirstFront(log);
      ReadsFirstEnds(front);
      if Last(log).FinishOneOf? && Opens(front) != [] {
        assert log[..|log| - 1] == front;
        ReadInFront(log, Last(Opens(front)), |log| - 1);
        ReadInWider(front, Last(Opens(front)), -1, |front|);
      }
    }
  }

  // ----- cuts of calls that do not read first

  /** Either a proper stretch, or one that starts at -1 for want of a read. */
  predicate Edged(c: Cut) {
    (c.0 == -1 && c.1 >= -1) || 0 <= c.0 <= c.1
  }

  /** The positions in hand: the last one is not behind any first one. */
  predicate ScanBound(sc: Scan) {
    sc.lastRead >= -1 && forall d :: 0 <= d < |sc.open| ==> -1 <= sc.open[d] <= sc.lastRead
  }

  lemma {:induction false} ScanIsBounded(log: seq<Event>, lastByte: int)
    requires ReadsIncrease(log) && lastByte >= -1
    ensures ScanBound(ScanLog(log, lastByte))
    ensures !ReadIn(log, -1, |log|) ==> forall d :: 0 <= d < |ScanLog(log, lastByte).open| ==>
      ScanLog(log, lastByte).open[d] == -1
    ensures ReadIn(log, -1, |log|) ==> IsLastRead(log, ScanLog(log, lastByte).lastRead)
  {
    if log != [] {
      var front := Front(log);
      assert ReadsIncrease(front);
      ScanIsBounded(front, lastByte);
      SomeReadStep(log);
      LastReadStep(log, lastByte);
      if Last(log).ReadByte? && ReadIn(front, -1, |front|) {
        LastReadBefore(log, ScanLog(front, lastByte).lastRead);
      }
    }
  }

  lemma LastReadBefore(log: seq<Event>, v: int)
    requires log != [] && Last(log).ReadByte? && ReadsIncrease(log) && IsLastRead(Front(log), v)
    ensures v < Last(log).pos
  {
    var j :| 0 <= j < |log| - 1 && Front(log)[j].ReadByte? && Front(log)[j].pos == v;
    assert log[j].pos == v && log[|log| - 1].ReadByte?;
  }

  lemma {:induction false} CutsAreEdged(log: seq<Event>, lastByte: int, c: Cut)
    requires ReadsIncrease(log) && lastByte >= -1 && c in CutsOfLog(log, lastByte)
    ensures Edged(c)
  {
    var front := Front(log);
    assert ReadsIncrease(front);
    if c in CutsOfLog(front, lastByte) {
      CutsAreEdged(front, lastByte, c);
    } else {
      ScanIsBounded(front, lastByte);
    }
  }

  /** If no cut starts at -1, calls end after a read. */
  lemma {:induction false} InsideEnds(log: seq<Event>, lastByte: int)
    requires ReadsIncrease(log) && lastByte >= -1 && forall c :: c in CutsOfLog(log, lastByte) ==> c.0 >= 0
    ensures EndsAfterRead(log)
  {
    if log != [] {
      var front, sc := Front(log), ScanLog(Front(log), lastByte);
      assert ReadsIncrease(front);
      assert forall c :: c in CutsOfLog(front, lastByte) ==> c in CutsOfLog(log, lastByte);
      InsideEnds(front, lastByte);
      ScanIsBounded(front, lastByte);
      SameDepth(front, lastByte);
      if Last(log).FinishOneOf? && sc.open != [] {
        NewCut(log, lastByte, (Last(sc.open), sc.lastRead));
      }
    }
  }

  /** Every cut of a run is a proper stretch or starts at -1. */
  lemma RunCutsAreEdged(p: Program, tape: seq<byte>, lastByte: int, c: Cut)
    requires lastByte >= -1 && c in CutsOfLog(Execute(p, tape).log, lastByte)
    ensures Edged(c)
  {
    ExecuteIncreasing(p, tape);
    assert ReadsIncrease(Execute(p, tape).log);
    CutsAreEdged(Execute(p, tape).log, lastByte, c);
  }

  /** A cut that does not end at the default is a cut for every default. */
  lemma {:induction false} CutStays(log: seq<Event>, a: int, b: int, c: Cut)
    requires c in CutsOfLog(log, a) && c.1 != a
    ensures c in CutsOfLog(log, b)
  {
    var front := Front(log);
    DefaultUnused(front, a, b);
    if c in CutsOfLog(front, a) {
      CutStays(front, a, b, c);
    } else {
      NewCut(log, b, c);
    }
  }

  lemma ReadInFront(log: seq<Event>, lo: int, hi: int)
    requires log != [] && hi <= |log| && (hi < |log| || !Last(log).ReadByte?)
    ensures ReadIn(log, lo, hi) ==> ReadIn(Front(log), lo, |log| - 1)
  {
    if ReadIn(log, lo, hi) {
      var j :| lo < j < hi && 0 <= j < |log| && log[j].ReadByte?;
      assert Front(log)[j].ReadByte?;
    }
  }

  lemma ReadInWider(log: seq<Event>, lo: int, lower: int, hi: int)
    requires lower <= lo && ReadIn(log, lo, hi)
    ensures ReadIn(log, lower, hi)
  {
  }

  /** The last position of the scan is the one the truncation uses. */
  lemma {:induction false} ScanLastRead(log: seq<Event>, lastByte: int)
    ensures ScanLog(log, lastByte).lastRead == LastRead(log, lastByte)
  {
    if log != [] {
      ScanLastRead(Front(log), lastByte);
    }
  }

  // ----- static structure: matching delimiters

  datatype Delim = Ch(c: byte) | Begin | End

  const DELIM_PAIRS: seq<(Delim, Delim)> := [
    (Ch(123), Ch(125)),  // { }
    (Ch(40), Ch(41)),    // ( )
    (Ch(91), Ch(93)),    // [ ]
    (Ch(59), Ch(59)),    // ; ;
    (Ch(123), Ch(59)),   // { ;
    (Ch(59), Ch(125)),   // ; }
    (Begin, Ch(10)),     // start, newline
    (Ch(10), End),       // newline, end
    (Ch(10), Ch(10)),    // newlines
    (Ch(39), Ch(39)),    // single quotes
    (Ch(34), Ch(34)),    // double quotes
    (Ch(47), Ch(47)),    // / /
    (Ch(47), Ch(42)),    // / *
    (Ch(47), Ch(10)),    // / newline
    (Ch(44), Ch(44)),    // , ,
    (Ch(40), Ch(44)),    // ( ,
    (Ch(44), Ch(41)),    // , )
    (Ch(60), Ch(62))     // < >
  ]

  predicate MatchesAt(d: Delim, test: seq<byte>, i: nat)
    requires i < |test|
  {
    match d
    case Ch(c) => test[i] == c
    case Begin => i == 0
    case End => i == |test| - 1
  }

  /** The delimiter cuts added from pair `p`, start `i` and stop `j` on. */
  function DelimsFrom(pairs: seq<(Delim, Delim)>, test: seq<byte>, p: nat, i: nat, j: int): seq<Cut>
    requires j < |test|
    decreases |pairs| - p, |test| - i, j + 1
  {
    if p >= |pairs| then []
    else if i >= |test| then DelimsFrom(pairs, test, p + 1, 0, |test| - 1)
    else if j <= i then DelimsFrom(pairs, test, p, i + 1, |test| - 1)
    else
      (if Found(pairs, test, p, i, j)
       then [(i, j), (i + 1, j - 1)] else [])
      + DelimsFrom(pairs, test, p, i, j - 1)
  }

  function Delims(test: seq<byte>): seq<Cut> {
    DelimsFrom(DELIM_PAIRS, test, 0, 0, |test| - 1)
  }

  method AugmentWithDelims(oneOfs: seq<Cut>, test: seq<byte>, noStaticStructure: bool) returns (cuts: seq<Cut>)
    ensures cuts == if noStaticStructure then oneOfs else oneOfs + Delims(test)
  {
    if noStaticStructure {
      return oneOfs;
    }
    var delims := MatchDelims(DELIM_PAIRS, test);
    cuts := oneOfs + delims;
  }

  predicate Found(pairs: seq<(Delim, Delim)>, test: seq<byte>, p: nat, i: nat, j: int)
    requires p < |pairs| && i < j < |test|
  {
    MatchesAt(pairs[p].0, test, i) && MatchesAt(pairs[p].1, test, j)
  }

  lemma DelimsStep(pairs: seq<(Delim, Delim)>, test: seq<byte>, p: nat, i: nat, j: int, delims: seq<Cut>)
    requires p < |pairs| && i < j < |test|
    ensures delims + DelimsFrom(pairs, test, p, i, j)
         == (if Found(pairs, test, p, i, j) then delims + [(i, j)] + [(i + 1, j - 1)] else delims)
            + DelimsFrom(pairs, test, p, i, j - 1)
  {
    var rest := DelimsFrom(pairs, test, p, i, j - 1);
    if Found(pairs, test, p, i, j) {
      assert delims + ([(i, j), (i + 1, j - 1)] + rest) == delims + [(i, j)] + [(i + 1, j - 1)] + rest;
    } else {
      assert [] + rest == rest;
    }
  }

  method MatchDelims(pairs: seq<(Delim, Delim)>, test: seq<byte>) returns (delims: seq<Cut>)
    ensures delims == DelimsFrom(pairs, test, 0, 0, |test| - 1)
  {
    delims := [];
    for p := 0 to |pairs|
      invariant DelimsFrom(pairs, test, 0, 0, |test| - 1) == delims + DelimsFrom(pairs, test, p, 0, |test| - 1)
    {
      for i := 0 to |test|
        invariant DelimsFrom(pairs, test, 0, 0, |test| - 1) == delims + DelimsFrom(pairs, test, p, i, |test| - 1)
      {
        delims := MatchStops(pairs, test, p, i, delims);
      }
    }
  }

  method MatchStops(pairs: seq<(Delim, Delim)>, test: seq<byte>, p: nat, i: nat, before: seq<Cut>)
    returns (delims: seq<Cut>)
    requires p < |pairs| && i < |test|
    ensures delims + DelimsFrom(pairs, test, p, i + 1, |test| - 1) == before + DelimsFrom(pairs, test, p, i, |test| - 1)
  {
    delims := before;
    var j := |test| - 1;
    ghost var goal := before + DelimsFrom(pairs, test, p, i, |test| - 1);
    while j > i
      invariant i <= j < |test|
      invariant goal == delims + DelimsFrom(pairs, test, p, i, j)
    {
      DelimsStep(pairs, test, p, i, j, delims);
      if Found(pairs, test, p, i, j) {
        delims := delims + [(i, j)];
        delims := delims + [(i + 1, j - 1)];
      }
      j := j - 1;
    }
  }

  ghost predicate Delimited(pairs: seq<(Delim, Delim)>, test: seq<byte>, p: nat, i: nat, j: int) {
    p < |pairs| && i < j < |test| && Found(pairs, test, p, i, j)
  }

  /** The stretch from `i` to `j`, with or without its ends. */
  predicate Around(c: Cut, i: int, j: int) {
    (c.0 == i && c.1 == j) || (c.0 == i + 1 && c.1 == j - 1)
  }

  predicate FromOn(p: nat, i: nat, j: int, q: nat, k: nat, m: int) {
    p < q || (p == q && i < k) || (p == q && i == k && m <= j)
  }

  lemma DelimsHere(pairs: seq<(Delim, Delim)>, test: seq<byte>, p: nat, i: nat, j: int, c: Cut)
    requires p < |pairs| && i < j < |test|
    ensures c in DelimsFrom(pairs, test, p, i, j) <==>
      (Found(pairs, test, p, i, j) && Around(c, i, j)) || c in DelimsFrom(pairs, test, p, i, j - 1)
  {
    var here: seq<Cut> := [(i, j), (i + 1, j - 1)];
    assert here[0] == (i, j) && here[1] == (i + 1, j - 1);
    var rest := DelimsFrom(pairs, test, p, i, j - 1);
    assert c in here + rest <==> c in here || c in rest;
  }

  /** A delimiter cut from (p, i, j) on comes from a match. */
  lemma {:induction false} DelimOf(pairs: seq<(Delim, Delim)>, test: seq<byte>, p: nat, i: nat, j: int, c: Cut)
    requires j < |test| && c in DelimsFrom(pairs, test, p, i, j)
    ensures exists q: nat, k: nat, m: int :: Delimited(pairs, test, q, k, m) && Around(c, k, m)
    decreases |pairs| - p, |test| - i, j + 1
  {
    if i >= |test| {
      DelimOf(pairs, test, p + 1, 0, |test| - 1, c);
    } else if j <= i {
      DelimOf(pairs, test, p, i + 1, |test| - 1, c);
    } else if c in DelimsFrom(pairs, test, p, i, j - 1) {
      DelimOf(pairs, test, p, i, j - 1, c);
    } else {
      DelimFound(pairs, test, p, i, j, c);
    }
  }

  lemma DelimFound(pairs: seq<(Delim, Delim)>, test: seq<byte>, p: nat, i: nat, j: int, c: Cut)
    requires i < j < |test| && c in DelimsFrom(pairs, test, p, i, j) && c !in DelimsFrom(pairs, test, p, i, j - 1)
    ensures Delimited(pairs, test, p, i, j) && Around(c, i, j)
  {
  }

  /** The loop position after (p, i, j) on a test of `n` bytes. */
  function Next(n: nat, p: nat, i: nat, j: int): (nat, nat, int) {
    if i >= n then (p + 1, 0, n - 1) else if j <= i then (p, i + 1, n - 1) else (p, i, j - 1)
  }

  lemma NextFromOn(n: nat, p: nat, i: nat, j: int, q: nat, k: nat, m: int)
    requires FromOn(p, i, j, q, k, m) && k < m < n && !(p == q && i == k && j == m)
    ensures var (p', i', j') := Next(n, p, i, j); FromOn(p', i', j', q, k, m)
  {
  }

  lemma DelimsSkip(pairs: seq<(Delim, Delim)>, test: seq<byte>, p: nat, i: nat, j: int)
    requires p < |pairs| && j < |test| && (i >= |test| || j <= i)
    ensures var (p', i', j') := Next(|test|, p, i, j);
      DelimsFrom(pairs, test, p, i, j) == DelimsFrom(pairs, test, p', i', j')
  {
  }

  lemma {:induction false} DelimIn(pairs: seq<(Delim, Delim)>, test: seq<byte>, p: nat, i: nat, j: int,
                                   q: nat, k: nat, m: int, c: Cut)
    requires j < |test| && Delimited(pairs, test, q, k, m) && FromOn(p, i, j, q, k, m)
    requires Around(c, k, m)
    ensures c in DelimsFrom(pairs, test, p, i, j)
    decreases |pairs| - p, |test| - i, j + 1
  {
    if p == q && i == k && j == m {
      DelimsHere(pairs, test, p, i, j, c);
    } else {
      var (p', i', j') := Next(|test|, p, i, j);
      NextFromOn(|test|, p, i, j, q, k, m);
      DelimIn(pairs, test, p', i', j', q, k, m, c);
      if i < |test| && i < j {
        DelimsHere(pairs, test, p, i, j, c);
      } else {
        DelimsSkip(pairs, test, p, i, j);
      }
    }
  }

  /** The delimiter cuts are exactly the stretches from a start to a later stop of
      one pair, with and without the two delimiters. */
  lemma DelimsExact(test: seq<byte>, c: Cut)
    ensures c in Delims(test) <==>
      exists q: nat, k: nat, m: int ::
        Delimited(DELIM_PAIRS, test, q, k, m) && Around(c, k, m)
  {
    if c in Delims(test) {
      DelimOf(DELIM_PAIRS, test, 0, 0, |test| - 1, c);
    }
    forall q: nat, k: nat, m: int | Delimited(DELIM_PAIRS, test, q, k, m) && Around(c, k, m)
      ensures c in Delims(test)
    {
      DelimIn(DELIM_PAIRS, test, 0, 0, |test| - 1, q, k, m, c);
    }
  }

  predicate Are(x: byte, y: byte, pair: string)
    requires |pair| == 2
  {
    x == pair[0] as int && y == pair[1] as int
  }

  /** The sixteen pairs of characters that delimit a stretch. */
  predicate IsPair(x: byte, y: byte) {
    || Are(x, y, "{}") || Are(x, y, "()") || Are(x, y, "[]") || Are(x, y, ";;")
    || Are(x, y, "{;") || Are(x, y, ";}") || Are(x, y, "\n\n") || Are(x, y, "''")
    || Are(x, y, "\"\"") || Are(x, y, "//") || Are(x, y, "/*") || Are(x, y, "/\n")
    || Are(x, y, ",,") || Are(x, y, "(,") || Are(x, y, ",)") || Are(x, y, "<>")
  }

  /** A pair, or a line that starts or ends the test. */
  predicate Delimits(test: seq<byte>, k: nat, m: int) {
    k < m < |test| && (IsPair(test[k], test[m]) || (k == 0 && test[m] == '\n' as int)
                       || (test[k] == '\n' as int && m == |test| - 1))
  }

  /** The place of a pair in the table. */
  function PairIndex(x: byte, y: byte): (q: nat)
    requires IsPair(x, y)
    ensures q < |DELIM_PAIRS| && DELIM_PAIRS[q] == (Ch(x), Ch(y))
  {
    if x == 123 then (if y == 125 then 0 else 4)
    else if x == 40 then (if y == 41 then 1 else 15)
    else if x == 91 then 2
    else if x == 59 then (if y == 59 then 3 else 5)
    else if x == 10 then 8
    else if x == 39 then 9
    else if x == 34 then 10
    else if x == 47 then (if y == 47 then 11 else if y == 42 then 12 else 13)
    else if x == 44 then (if y == 44 then 14 else 16)
    else 17
  }

  lemma PairFound(test: seq<byte>, k: nat, m: int) returns (q: nat)
    requires Delimits(test, k, m)
    ensures Delimited(DELIM_PAIRS, test, q, k, m)
  {
    if k == 0 && test[m] == 10 {
      q := 6;
    } else if test[k] == 10 && m == |test| - 1 {
      q := 7;
    } else {
      q := PairIndex(test[k], test[m]);
    }
  }

  lemma FoundPair(test: seq<byte>, q: nat, k: nat, m: int)
    requires Delimited(DELIM_PAIRS, test, q, k, m)
    ensures Delimits(test, k, m)
  {
  }

  /** The stretches, by their characters. */
  lemma DelimsByCharacter(test: seq<byte>, c: Cut)
    ensures c in Delims(test) <==> exists k: nat, m: int :: Delimits(test, k, m) && Around(c, k, m)
  {
    DelimsExact(test, c);
    forall q: nat, k: nat, m: int | Delimited(DELIM_PAIRS, test, q, k, m) && Around(c, k, m)
      ensures Delimits(test, k, m)
    {
      FoundPair(test, q, k, m);
    }
    forall k: nat, m: int | Delimits(test, k, m) && Around(c, k, m)
      ensures c in Delims(test)
    {
      var q := PairFound(test, k, m);
    }
  }
}
