/** What the stack of the trace parser holds and which cuts it yields, on every log,
    told by the lines alone. */
module Calls {
  import opened Words
  import opened Programs
  import opened Structure

  // ----- which calls are open

  /** How many more calls are started than finished on the lines from `s` to before
      `j`. */
  function Excess(log: seq<Event>, s: nat, j: nat): int
    requires s <= j <= |log|
    decreases j
  {
    if s == j then 0
    else Excess(log, s, j - 1) + (if log[j - 1].StartOneOf? then 1 else if log[j - 1].FinishOneOf? then -1 else 0)
  }

  /** The call started at line `s` has not been finished: its start is not yet
      outweighed. */
  ghost predicate IsOpen(log: seq<Event>, s: nat) {
    s < |log| && log[s].StartOneOf? && forall j: nat :: s < j <= |log| ==> Excess(log, s, j) >= 1
  }

  lemma {:induction false} ExcessFront(log: seq<Event>, s: nat, j: nat)
    requires log != [] && s <= j < |log|
    ensures Excess(Front(log), s, j) == Excess(log, s, j)
    decreases j
  {
    if s < j {
      ExcessFront(log, s, j - 1);
    }
  }

  lemma IsOpenFront(log: seq<Event>, s: nat)
    requires log != [] && s < |log| - 1
    ensures IsOpen(log, s) <==> IsOpen(Front(log), s) && Excess(log, s, |log|) >= 1
  {
    forall j: nat | s < j < |log|
      ensures Excess(Front(log), s, j) == Excess(log, s, j)
    {
      ExcessFront(log, s, j);
    }
  }

  /** From its start on, an open call is outweighed by one for each call inside it. */
  ghost predicate Outweighs(log: seq<Event>, opens: seq<nat>) {
    forall d :: 0 <= d < |opens| ==> opens[d] <= |log| && Excess(log, opens[d], |log|) == |opens| - d
  }

  lemma ExcessStep(log: seq<Event>, s: nat)
    requires log != [] && s < |log|
    ensures Excess(log, s, |log|) == Excess(Front(log), s, |log| - 1)
              + (if Last(log).StartOneOf? then 1 else if Last(log).FinishOneOf? then -1 else 0)
  {
    ExcessFront(log, s, |log| - 1);
  }

  lemma OutweighsStep(log: seq<Event>)
    requires log != [] && Outweighs(Front(log), Opens(Front(log)))
    ensures Outweighs(log, Opens(log))
  {
    var before, opens := Opens(Front(log)), Opens(log);
    OpensBound(Front(log));
    forall d | 0 <= d < |opens|
      ensures opens[d] <= |log| && Excess(log, opens[d], |log|) == |opens| - d
    {
      if d < |before| {
        assert opens[d] == before[d];
      } else {
        assert Excess(Front(log), |log| - 1, |log| - 1) == 0;
      }
      ExcessStep(log, opens[d]);
    }
  }

  /** The stack is the row of the calls that are not finished. */
  lemma {:induction false} OpensExactly(log: seq<Event>, s: nat)
    ensures s in Opens(log) <==> IsOpen(log, s)
    ensures Outweighs(log, Opens(log))
  {
    if log != [] {
      OpensExactly(Front(log), s);
      OutweighsStep(log);
      OpensBound(Front(log));
      if s < |log| - 1 {
        IsOpenFront(log, s);
        ExcessStep(log, s);
        OneLineLater(log, Opens(Front(log)), s);
      } else {
        OpensBound(log);
        NewestOpen(log, s);
      }
    }
  }

  lemma NewestOpen(log: seq<Event>, s: nat)
    requires log != [] && s >= |log| - 1
    requires forall d :: 0 <= d < |Opens(log)| ==> Opens(log)[d] < |log| && log[Opens(log)[d]].StartOneOf?
    ensures s in Opens(log) <==> IsOpen(log, s)
  {
    if s == |log| - 1 && Last(log).StartOneOf? {
      assert Opens(log)[|Opens(log)| - 1] == s;
      assert Excess(log, s, s) == 0 && Excess(log, s, |log|) == 1;
    }
  }

  lemma OneLineLater(log: seq<Event>, before: seq<nat>, s: nat)
    requires log != [] && s < |log| - 1 && before == Opens(Front(log))
    requires Outweighs(Front(log), before) && Outweighs(log, Opens(log))
    requires forall c, d :: 0 <= c < d < |before| ==> before[c] < before[d]
    requires Excess(log, s, |log|) == Excess(Front(log), s, |log| - 1)
               + (if Last(log).StartOneOf? then 1 else if Last(log).FinishOneOf? then -1 else 0)
    ensures s in Opens(log) <==> s in before && Excess(log, s, |log|) >= 1
  {
    if s in before {
      var d :| 0 <= d < |before| && before[d] == s;
      assert Excess(Front(log), before[d], |log| - 1) == |before| - d;
      if Last(log).FinishOneOf? {
        assert s in before[..|before| - 1] <==> d < |before| - 1;
      }
    }
  }

  // ----- which cuts there are

  /** `v` is the last position read before line `k`, or the default. */
  ghost predicate LastBefore(log: seq<Event>, lastByte: int, k: nat, v: int)
    requires k <= |log|
  {
    if ReadIn(log[..k], -1, k) then IsLastRead(log[..k], v) else v == lastByte
  }

  /** The cut of the call from line `s` to line `k`: from the first position that the
      call reads itself, or -1, to the last position read by then. */
  ghost predicate CutOfCall(log: seq<Event>, lastByte: int, s: nat, k: nat, c: Cut) {
    IsCall(log, s, k) && FirstOwn(log[..k], s, c.0) && LastBefore(log, lastByte, k, c.1)
  }

  lemma CallHasCut(log: seq<Event>, lastByte: int, s: nat, k: nat)
    requires IsCall(log, s, k)
    ensures ScanLog(log[..k], lastByte).open != [] && CutOfCall(log, lastByte, s, k, CutAt(log, lastByte, k))
  {
    var head := log[..k];
    SameDepth(head, lastByte);
    StackHoldsOwn(head, lastByte);
    LastReadIsLast(head, lastByte);
    DefaultUnused(head, lastByte, lastByte);
    assert Opens(head)[|Opens(head)| - 1] == s;
  }

  lemma SameFirst(log: seq<Event>, s: nat, v: int, w: int)
    requires FirstOwn(log, s, v) && FirstOwn(log, s, w)
    ensures v == w
  {
    if v != -1 && w != -1 {
      var i :| OwnRead(log, s, i) && log[i].pos == v && forall m :: m < i ==> !OwnRead(log, s, m);
      var j :| OwnRead(log, s, j) && log[j].pos == w && forall m :: m < j ==> !OwnRead(log, s, m);
    }
  }

  lemma SameCut(log: seq<Event>, lastByte: int, s: nat, k: nat, c: Cut, d: Cut)
    requires CutOfCall(log, lastByte, s, k, c) && CutOfCall(log, lastByte, s, k, d)
    ensures c == d
  {
    SameFirst(log[..k], s, c.0, d.0);
    if ReadIn(log[..k], -1, k) {
      var i :| 0 <= i < k && log[..k][i].ReadByte? && log[..k][i].pos == c.1
               && forall m :: i < m < k ==> !log[..k][m].ReadByte?;
    }
  }

  /** The cuts recorded in the first `n` lines are those of the calls finished there. */
  lemma {:induction false} CutsUpTo(log: seq<Event>, lastByte: int, n: nat, c: Cut)
    requires n <= |log|
    ensures c in CutsOfLog(log[..n], lastByte) <==> CutBefore(log, lastByte, n, c)
  {
    if n > 0 {
      var k := n - 1;
      assert Front(log[..n]) == log[..k] && Last(log[..n]) == log[k];
      CutsUpTo(log, lastByte, k, c);
      SameDepth(log[..k], lastByte);
      LineCuts(log, lastByte, k, c, log[..n]);
      forall s: nat
        ensures CutOfCall(log, lastByte, s, k, c) <==> IsCall(log, s, k) && c == CutAt(log, lastByte, k)
      {
        OnlyCut(log, lastByte, s, k, c);
      }
      CutBeforeNext(log, lastByte, k, c);
    }
  }

  ghost predicate CutBefore(log: seq<Event>, lastByte: int, n: nat, c: Cut) {
    exists s: nat, k: nat :: k < n && CutOfCall(log, lastByte, s, k, c)
  }

  lemma OnlyCut(log: seq<Event>, lastByte: int, s: nat, k: nat, c: Cut)
    requires k < |log|
    ensures IsCall(log, s, k) ==> ScanLog(log[..k], lastByte).open != []
    ensures CutOfCall(log, lastByte, s, k, c) <==> IsCall(log, s, k) && c == CutAt(log, lastByte, k)
  {
    if IsCall(log, s, k) {
      CallHasCut(log, lastByte, s, k);
      if CutOfCall(log, lastByte, s, k, c) {
        SameCut(log, lastByte, s, k, c, CutAt(log, lastByte, k));
      }
    }
  }

  /** The cuts after line `k`: those before, and that of the call finished there. */
  lemma LineCuts(log: seq<Event>, lastByte: int, k: nat, c: Cut, head: seq<Event>)
    requires k < |log| && head != [] && Front(head) == log[..k] && Last(head) == log[k]
    requires |ScanLog(log[..k], lastByte).open| == |Opens(log[..k])|
    ensures c in CutsOfLog(head, lastByte) <==>
      c in CutsOfLog(log[..k], lastByte) ||
      (log[k].FinishOneOf? && Opens(log[..k]) != [] && c == CutAt(log, lastByte, k))
  {
    var before, sc := CutsOfLog(log[..k], lastByte), ScanLog(log[..k], lastByte);
    if log[k].FinishOneOf? && sc.open != [] {
      assert c in before + [(Last(sc.open), sc.lastRead)] <==> c in before || c == (Last(sc.open), sc.lastRead);
    }
  }

  lemma CutBeforeNext(log: seq<Event>, lastByte: int, k: nat, c: Cut)
    requires k < |log| && (Opens(log[..k]) != [] ==> ScanLog(log[..k], lastByte).open != [])
    requires forall s: nat :: CutOfCall(log, lastByte, s, k, c) <==> IsCall(log, s, k) && c == CutAt(log, lastByte, k)
    ensures CutBefore(log, lastByte, k + 1, c) <==>
      CutBefore(log, lastByte, k, c) ||
      (log[k].FinishOneOf? && Opens(log[..k]) != [] && c == CutAt(log, lastByte, k))
  {
    if log[k].FinishOneOf? && Opens(log[..k]) != [] && c == CutAt(log, lastByte, k) {
      var s := Last(Opens(log[..k]));
      assert IsCall(log, s, k) && CutOfCall(log, lastByte, s, k, c);
    }
  }

  /** On every log, the cuts are exactly those of the finished calls. */
  lemma CutsExactly(log: seq<Event>, lastByte: int, c: Cut)
    ensures c in CutsOfLog(log, lastByte) <==> exists s: nat, k: nat :: CutOfCall(log, lastByte, s, k, c)
  {
    assert log[..|log|] == log;
    CutsUpTo(log, lastByte, |log|, c);
  }
}
