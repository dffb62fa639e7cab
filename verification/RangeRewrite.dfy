/** The reducer rewrites a test that it has already checked: a multi-byte read
    whose value was out of range is replaced by zeros and the value it was
    converted to.  The rewritten test is not run again; here is why it need not be. */
module RangeRewrite {
  import opened Words
  import opened Programs

  /** A converted read: the first and last byte it took, and the converted value. */
  datatype Site = Site(first: nat, last: nat, value: int)

  // ----- reading the conversions off a log

  datatype Parser = Parser(started: bool, multiFirst: Option<nat>, lastRead: Option<nat>,
                           current: Option<(nat, nat)>)

  const START := Parser(false, None, None, None)

  function Feed(st: Parser, e: Event): Parser {
    match e
    case ReadByte(pos) =>
      st.(lastRead := Some(pos),
          multiFirst := if st.started && st.multiFirst.None? then Some(pos) else st.multiFirst)
    case StartMulti => st.(started := true)
    case FinishMulti =>
      st.(started := false, multiFirst := None,
          current := if st.multiFirst.Some? && st.lastRead.Some?
                     then Some((st.multiFirst.value, st.lastRead.value)) else None)
    case _ => st
  }

  function SiteAt(st: Parser, e: Event): seq<Site> {
    if e.Converting? && st.current.Some? then [Site(st.current.value.0, st.current.value.1, e.value)] else []
  }

  function FeedAll(st: Parser, log: seq<Event>): Parser
    decreases |log|
  {
    if log == [] then st else FeedAll(Feed(st, log[0]), log[1..])
  }

  function ConversionsFrom(st: Parser, log: seq<Event>): seq<Site>
    decreases |log|
  {
    if log == [] then [] else SiteAt(st, log[0]) + ConversionsFrom(Feed(st, log[0]), log[1..])
  }

  function Conversions(log: seq<Event>): seq<Site> {
    ConversionsFrom(START, log)
  }

  /** Every conversion is printed after a complete multi-byte read; on other logs
      the original stops with an unbound variable. */
  predicate Legible(st: Parser, log: seq<Event>)
    decreases |log|
  {
    log == [] || ((log[0].Converting? ==> st.current.Some?) && Legible(Feed(st, log[0]), log[1..]))
  }

  method RangeConversions(log: seq<Event>) returns (conversions: seq<Site>)
    requires Legible(START, log)
    ensures conversions == Conversions(log)
  {
    conversions := [];
    var lastRead, multiFirst, currentMulti := None, None, None;
    var startedMulti := false;
    ghost var st, goal := START, Conversions(log);
    for i := 0 to |log|
      invariant st == Parser(startedMulti, multiFirst, lastRead, currentMulti)
      invariant Legible(st, log[i..])
      invariant goal == conversions + ConversionsFrom(st, log[i..])
    {
      var line := log[i];
      NextLine(st, log, i, conversions, goal);
      st := Feed(st, line);
      if line.ReadByte? {
        lastRead := Some(line.pos);
      }
      if line.StartMulti? {
        startedMulti := true;
      }
      if startedMulti && multiFirst.None? && line.ReadByte? {
        multiFirst := lastRead;
      }
      if line.FinishMulti? {
        currentMulti := if multiFirst.Some? && lastRead.Some? then Some((multiFirst.value, lastRead.value)) else None;
        startedMulti := false;
        multiFirst := None;
      }
      if line.Converting? {
        conversions := conversions + [Site(currentMulti.value.0, currentMulti.value.1, line.value)];
      }
    }
  }

  lemma NextLine(st: Parser, log: seq<Event>, i: nat, done: seq<Site>, goal: seq<Site>)
    requires i < |log| && Legible(st, log[i..]) && goal == done + ConversionsFrom(st, log[i..])
    ensures log[i].Converting? ==> st.current.Some?
    ensures Legible(Feed(st, log[i]), log[i + 1..])
    ensures goal == done + SiteAt(st, log[i]) + ConversionsFrom(Feed(st, log[i]), log[i + 1..])
  {
    assert log[i..][1..] == log[i + 1..];
    var here, later := SiteAt(st, log[i]), ConversionsFrom(Feed(st, log[i]), log[i + 1..]);
    assert done + (here + later) == done + here + later;
  }

  lemma {:induction false} ParseConcat(st: Parser, a: seq<Event>, b: seq<Event>)
    ensures ConversionsFrom(st, a + b) == ConversionsFrom(st, a) + ConversionsFrom(FeedAll(st, a), b)
    ensures Legible(st, a + b) <==> Legible(st, a) && Legible(FeedAll(st, a), b)
    decreases |a|
  {
    if a == [] {
      assert a + b == b;
    } else {
      assert (a + b)[1..] == a[1..] + b;
      ParseConcat(Feed(st, a[0]), a[1..], b);
    }
  }

  // ----- the conversions of a run

  predicate Idle(st: Parser) {
    !st.started && st.multiFirst.None?
  }

  function SitesOf(a: Reply, i: nat): seq<Site> {
    if a.Reply? && a.log != [] && a.log[|a.log| - 1].Converting? && a.used > 0
    then [Site(i, i + a.used - 1, a.log[|a.log| - 1].value)] else []
  }

  ghost function Sites(p: Program, f: Server, i: nat, depth: nat): seq<Site>
    decreases p, 1
  {
    if p.Halt? || (p.req.LeaveOneOf? && depth == 0) || f(p.req, i).InputExceeded? then []
    else
      var a := f(p.req, i);
      SitesOf(a, i) + LaterSites(p, a.value, f, i + a.used, Depth(p.req, depth))
  }

  ghost function LaterSites(p: Program, v: int, f: Server, i: nat, depth: nat): seq<Site>
    requires p.Call?
    decreases p, 0
  {
    if v in p.next then Sites(p.next[v], f, i, depth) else []
  }

  lemma {:induction false} ParseReads(st: Parser, i: nat, n: nat)
    requires st.started && n >= 1 && (st.multiFirst.Some? || n > 0)
    ensures FeedAll(st, ReadLog(i, n))
         == st.(lastRead := Some(i + n - 1), multiFirst := if st.multiFirst.None? then Some(i) else st.multiFirst)
    ensures ConversionsFrom(st, ReadLog(i, n)) == [] && Legible(st, ReadLog(i, n))
    decreases n
  {
    var log := ReadLog(i, n);
    assert log[0] == ReadByte(i);
    if n == 1 {
      assert log[1..] == [];
    } else {
      assert log[1..] == ReadLog(i + 1, n - 1);
      ParseReads(Feed(st, log[0]), i + 1, n - 1);
    }
  }

  lemma ParseMulti(st: Parser, i: nat, n: nat)
    requires Idle(st) && n >= 1
    ensures ConversionsFrom(st, MultiLog(i, n)) == [] && Legible(st, MultiLog(i, n))
    ensures FeedAll(st, MultiLog(i, n)) == Parser(false, None, Some(i + n - 1), Some((i, i + n - 1)))
  {
    var mid := Feed(st, StartMulti);
    ParseReads(mid, i, n);
    var bytes := ReadLog(i, n);
    var end := FeedAll(mid, bytes);
    assert ([StartMulti] + bytes) + [FinishMulti] == [StartMulti] + (bytes + [FinishMulti]);
    assert ([StartMulti] + (bytes + [FinishMulti]))[1..] == bytes + [FinishMulti];
    ParseConcat(mid, bytes, [FinishMulti]);
    FeedConcat(mid, bytes, [FinishMulti]);
    assert [FinishMulti][1..] == [];
  }

  lemma {:induction false} FeedConcat(st: Parser, a: seq<Event>, b: seq<Event>)
    ensures FeedAll(st, a + b) == FeedAll(FeedAll(st, a), b)
    decreases |a|
  {
    if a == [] {
      assert a + b == b;
    } else {
      assert (a + b)[1..] == a[1..] + b;
      FeedConcat(Feed(st, a[0]), a[1..], b);
    }
  }

  lemma ParseOne(st: Parser, e: Event)
    ensures FeedAll(st, [e]) == Feed(st, e) && ConversionsFrom(st, [e]) == SiteAt(st, e)
    ensures Legible(st, [e]) <==> (e.Converting? ==> st.current.Some?)
  {
    assert [e][1..] == [];
  }

  /** From an idle parser, the log of this reply yields just its conversion. */
  ghost predicate ParsesTo(st: Parser, a: Reply, i: nat) {
    a.Reply? && Idle(FeedAll(st, a.log)) && ConversionsFrom(st, a.log) == SitesOf(a, i) && Legible(st, a.log)
  }

  lemma ParseAnswer(st: Parser, req: Request, tape: seq<byte>, i: nat)
    requires Idle(st) && Answer(req, tape, i).Reply?
    ensures ParsesTo(st, Answer(req, tape, i), i)
  {
    var a := Answer(req, tape, i);
    if (req.Word? || req.InRange?) && a.used > 0 {
      ParseWord(st, a, i);
    } else if a.log != [] {
      assert a.log == [a.log[0]];
      ParseOne(st, a.log[0]);
    }
  }

  lemma ParseWord(st: Parser, a: Reply, i: nat)
    requires Idle(st) && a.Reply? && a.used > 0
    requires a.log == MultiLog(i, a.used) || exists v :: a.log == MultiLog(i, a.used) + [Converting(v)]
    ensures ParsesTo(st, a, i)
  {
    var multi := MultiLog(i, a.used);
    ParseMulti(st, i, a.used);
    assert multi[|multi| - 1] == FinishMulti;
    if a.log != multi {
      var v :| a.log == multi + [Converting(v)];
      ParseConcat(st, multi, [Converting(v)]);
      FeedConcat(st, multi, [Converting(v)]);
      ParseOne(FeedAll(st, multi), Converting(v));
    }
  }

  ghost predicate ParsesAll(f: Server) {
    forall s, req, j: nat :: Idle(s) && f(req, j).Reply? ==> ParsesTo(s, f(req, j), j)
  }

  /** The log can be parsed from `st` and yields these sites. */
  predicate Yields(st: Parser, log: seq<Event>, sites: seq<Site>) {
    ConversionsFrom(st, log) == sites && Legible(st, log)
  }

  lemma YieldsConcat(st: Parser, a: Reply, i: nat, rest: seq<Event>, later: seq<Site>)
    requires ParsesTo(st, a, i) && Yields(FeedAll(st, a.log), rest, later)
    ensures Yields(st, a.log + rest, SitesOf(a, i) + later)
  {
    ParseConcat(st, a.log, rest);
  }

  lemma {:induction false} ParseFrom(st: Parser, p: Program, f: Server, i: nat, depth: nat)
    requires ParsesAll(f) && Idle(st)
    ensures Yields(st, RunFrom(p, f, i, depth).log, Sites(p, f, i, depth))
    decreases p, 2
  {
    if Answered(p, f, i, depth) {
      ParseCall(st, p, f, i, depth);
    } else {
      NoCall(p, f, i, depth);
    }
  }

  lemma NoCall(p: Program, f: Server, i: nat, depth: nat)
    requires !Answered(p, f, i, depth)
    ensures RunFrom(p, f, i, depth).log == [] && Sites(p, f, i, depth) == []
  {
  }

  lemma ParseCall(st: Parser, p: Program, f: Server, i: nat, depth: nat)
    requires ParsesAll(f) && Idle(st) && Answered(p, f, i, depth)
    ensures Yields(st, RunFrom(p, f, i, depth).log, Sites(p, f, i, depth))
    decreases p, 1
  {
    var a, d := f(p.req, i), Depth(p.req, depth);
    assert ParsesTo(st, a, i);
    ParseLater(FeedAll(st, a.log), p, a.value, f, i + a.used, d);
    ParseJoin(st, a, i, RunFrom(p, f, i, depth), Resume(p, a.value, f, i + a.used, d), Printed(p.req),
              LaterSites(p, a.value, f, i + a.used, d));
  }

  lemma ParseJoin(st: Parser, a: Reply, i: nat, whole: Run, rest: Run, lines: seq<string>, later: seq<Site>)
    requires ParsesTo(st, a, i) && Yields(FeedAll(st, a.log), rest.log, later)
    requires whole == Prepend(a.value, a.log, lines, rest)
    ensures Yields(st, whole.log, SitesOf(a, i) + later)
  {
    YieldsConcat(st, a, i, rest.log, later);
  }

  lemma ParseLater(st: Parser, p: Program, v: int, f: Server, i: nat, depth: nat)
    requires ParsesAll(f) && Idle(st) && p.Call?
    ensures Yields(st, Resume(p, v, f, i, depth).log, LaterSites(p, v, f, i, depth))
    decreases p, 0
  {
    if v in p.next {
      ParseFrom(st, p.next[v], f, i, depth);
    }
  }

  /** The log of a run can be parsed and lists exactly its converted reads. */
  lemma ParseRun(p: Program, tape: seq<byte>)
    ensures Legible(START, Execute(p, tape).log)
    ensures Conversions(Execute(p, tape).log) == Sites(p, Serve(tape), 0, 0)
  {
    forall s, req, j: nat | Idle(s) && Answer(req, tape, j).Reply?
      ensures ParsesTo(s, Answer(req, tape, j), j)
    {
      ParseAnswer(s, req, tape, j);
    }
    ParseFrom(START, p, Serve(tape), 0, 0);
  }

  // ----- the conversions as they stand in the log

  /** Line `k` prints the conversion, right after the lines of the read it belongs to. */
  ghost predicate PrintedAt(log: seq<Event>, k: int, s: Site) {
    var n := s.last - s.first + 1;
    s.first <= s.last && n + 2 <= k < |log| && log[k] == Converting(s.value)
    && log[k - n - 2..k] == MultiLog(s.first, n)
  }

  ghost predicate IsPrinted(log: seq<Event>, s: Site) {
    exists k :: PrintedAt(log, k, s)
  }

  ghost predicate IsListed(log: seq<Event>, k: int, sites: seq<Site>) {
    exists s :: s in sites && PrintedAt(log, k, s)
  }

  /** The sites are those of the lines that print a conversion. */
  ghost predicate Lists(log: seq<Event>, sites: seq<Site>) {
    && (forall k :: 0 <= k < |log| && log[k].Converting? ==> IsListed(log, k, sites))
    && (forall s :: s in sites ==> IsPrinted(log, s))
  }

  lemma PrintedBefore(a: seq<Event>, b: seq<Event>, k: int, s: Site)
    requires PrintedAt(a, k, s)
    ensures PrintedAt(a + b, k, s)
  {
    var n := s.last - s.first + 1;
    assert (a + b)[k - n - 2..k] == a[k - n - 2..k];
  }

  lemma PrintedAfter(a: seq<Event>, b: seq<Event>, k: int, s: Site)
    requires PrintedAt(b, k, s)
    ensures PrintedAt(a + b, |a| + k, s)
  {
    var n := s.last - s.first + 1;
    assert (a + b)[|a| + k - n - 2..|a| + k] == b[k - n - 2..k];
  }

  lemma ListsConcat(a: seq<Event>, b: seq<Event>, x: seq<Site>, y: seq<Site>)
    requires Lists(a, x) && Lists(b, y)
    ensures Lists(a + b, x + y)
  {
    forall k | 0 <= k < |a + b| && (a + b)[k].Converting?
      ensures IsListed(a + b, k, x + y)
    {
      ListedConcat(a, b, x, y, k);
    }
    forall s | s in x + y
      ensures IsPrinted(a + b, s)
    {
      PrintedConcat(a, b, x, y, s);
    }
  }

  lemma ListedConcat(a: seq<Event>, b: seq<Event>, x: seq<Site>, y: seq<Site>, k: int)
    requires Lists(a, x) && Lists(b, y) && 0 <= k < |a + b| && (a + b)[k].Converting?
    ensures IsListed(a + b, k, x + y)
  {
    if k < |a| {
      ListedLeft(a, b, x, y, k);
    } else {
      ListedRight(a, b, x, y, k - |a|);
    }
  }

  lemma ListedLeft(a: seq<Event>, b: seq<Event>, x: seq<Site>, y: seq<Site>, k: int)
    requires IsListed(a, k, x)
    ensures IsListed(a + b, k, x + y)
  {
    var s :| s in x && PrintedAt(a, k, s);
    PrintedBefore(a, b, k, s);
    assert s in x + y;
  }

  lemma ListedRight(a: seq<Event>, b: seq<Event>, x: seq<Site>, y: seq<Site>, k: int)
    requires IsListed(b, k, y)
    ensures IsListed(a + b, |a| + k, x + y)
  {
    var s :| s in y && PrintedAt(b, k, s);
    PrintedAfter(a, b, k, s);
    assert s in x + y;
  }

  lemma PrintedConcat(a: seq<Event>, b: seq<Event>, x: seq<Site>, y: seq<Site>, s: Site)
    requires Lists(a, x) && Lists(b, y) && s in x + y
    ensures IsPrinted(a + b, s)
  {
    if s in x {
      var k :| PrintedAt(a, k, s);
      PrintedBefore(a, b, k, s);
    } else {
      var k :| PrintedAt(b, k, s);
      PrintedAfter(a, b, k, s);
    }
  }

  lemma ReplyLists(req: Request, tape: seq<byte>, i: nat)
    requires Answer(req, tape, i).Reply?
    ensures Lists(Answer(req, tape, i).log, SitesOf(Answer(req, tape, i), i))
  {
    var a := Answer(req, tape, i);
    if (req.Word? || req.InRange?) && a.used > 0 {
      ReadLists(a, i, MultiLog(i, a.used));
    }
  }

  lemma ReadLists(a: Reply, i: nat, multi: seq<Event>)
    requires a.Reply? && a.used > 0 && multi == MultiLog(i, a.used)
    requires a.log == multi || a.log == multi + [Converting(a.value)]
    ensures Lists(a.log, SitesOf(a, i))
  {
    MultiConverts(multi, i, a.used);
    if a.log != multi {
      assert SitesOf(a, i) == [Site(i, i + a.used - 1, a.value)];
      ConversionLists(a.log, multi, i, a.used, a.value, Site(i, i + a.used - 1, a.value));
    }
  }

  lemma MultiConverts(multi: seq<Event>, i: nat, n: nat)
    requires multi == MultiLog(i, n)
    ensures |multi| == n + 2 && multi[|multi| - 1] == FinishMulti
    ensures forall k :: 0 <= k < |multi| ==> !multi[k].Converting?
  {
  }

  lemma ConversionLists(log: seq<Event>, multi: seq<Event>, i: nat, n: nat, v: int, s: Site)
    requires n > 0 && multi == MultiLog(i, n) && |multi| == n + 2 && log == multi + [Converting(v)]
    requires (forall k :: 0 <= k < |multi| ==> !multi[k].Converting?) && s == Site(i, i + n - 1, v)
    ensures Lists(log, [s])
  {
    assert log[0..|multi|] == multi;
    assert PrintedAt(log, |multi|, s);
    assert IsListed(log, |multi|, [s]);
  }

  ghost predicate ListsAll(f: Server) {
    forall req, j: nat :: f(req, j).Reply? ==> Lists(f(req, j).log, SitesOf(f(req, j), j))
  }

  lemma {:induction false} RunLists(p: Program, f: Server, i: nat, depth: nat)
    requires ListsAll(f)
    ensures Lists(RunFrom(p, f, i, depth).log, Sites(p, f, i, depth))
    decreases p, 2
  {
    if Answered(p, f, i, depth) {
      CallLists(p, f, i, depth);
    } else {
      NoCall(p, f, i, depth);
    }
  }

  lemma CallLists(p: Program, f: Server, i: nat, depth: nat)
    requires ListsAll(f) && Answered(p, f, i, depth)
    ensures Lists(RunFrom(p, f, i, depth).log, Sites(p, f, i, depth))
    decreases p, 1
  {
    var a, d := f(p.req, i), Depth(p.req, depth);
    assert Lists(a.log, SitesOf(a, i));
    LaterLists(p, a.value, f, i + a.used, d);
    ListsJoin(a, SitesOf(a, i), RunFrom(p, f, i, depth), Resume(p, a.value, f, i + a.used, d), Printed(p.req),
              LaterSites(p, a.value, f, i + a.used, d));
  }

  lemma LaterLists(p: Program, v: int, f: Server, i: nat, depth: nat)
    requires p.Call? && ListsAll(f)
    ensures Lists(Resume(p, v, f, i, depth).log, LaterSites(p, v, f, i, depth))
    decreases p, 0
  {
    if v in p.next {
      RunLists(p.next[v], f, i, depth);
    }
  }

  lemma ListsJoin(a: Reply, here: seq<Site>, whole: Run, rest: Run, lines: seq<string>, later: seq<Site>)
    requires a.Reply? && Lists(a.log, here) && Lists(rest.log, later)
    requires whole == Prepend(a.value, a.log, lines, rest)
    ensures Lists(whole.log, here + later)
  {
    ListsConcat(a.log, rest.log, here, later);
  }

  /** What the parser finds in the log of a run is what its lines print: value by
      value, with the positions of the multi-byte read just before. */
  lemma ConversionsArePrinted(p: Program, tape: seq<byte>)
    ensures Lists(Execute(p, tape).log, Conversions(Execute(p, tape).log))
  {
    ParseRun(p, tape);
    forall req, j: nat | Answer(req, tape, j).Reply?
      ensures Lists(Answer(req, tape, j).log, SitesOf(Answer(req, tape, j), j))
    {
      ReplyLists(req, tape, j);
    }
    RunLists(p, Serve(tape), 0, 0);
  }

  // ----- rewriting the test

  /** Whether the reducer replaces the bytes of this read. */
  predicate Applies(tape: seq<byte>, s: Site) {
    s.first <= s.last < |tape| && 0 <= s.value < 255 && s.value < tape[s.last]
  }

  function FixOne(tape: seq<byte>, s: Site): (fixed: seq<byte>)
    ensures |fixed| == |tape|
  {
    if Applies(tape, s) then
      tape[..s.first] + seq<byte>(s.last - s.first, _ => 0) + [s.value] + tape[s.last + 1..]
    else tape
  }

  /** Reads are in tape order, so the first one beyond the end stops the pass. */
  function Fix(tape: seq<byte>, sites: seq<Site>): (fixed: seq<byte>)
    ensures |fixed| == |tape|
    decreases |sites|
  {
    if sites == [] || sites[0].last >= |tape| then tape else Fix(FixOne(tape, sites[0]), sites[1..])
  }

  /** Reads in the order of the tape, each after the one before it. */
  ghost predicate Ascending(sites: seq<Site>) {
    && (forall i :: 0 <= i < |sites| ==> sites[i].first <= sites[i].last)
    && (forall i, j :: 0 <= i < j < |sites| ==> sites[i].last < sites[j].first)
  }

  /** The conversion is to a byte that is below the last one read. */
  ghost predicate Due(tape: seq<byte>, s: Site) {
    s.last < |tape| && 0 <= s.value < 255 && s.value < tape[s.last]
  }

  /** Every read that is due holds its converted value, after zeros; the rest of the
      tape is as it was. */
  ghost predicate RewrittenTo(tape: seq<byte>, sites: seq<Site>, u: seq<byte>) {
    && |u| == |tape|
    && (forall s :: s in sites && Due(tape, s) ==>
          u[s.last] == s.value && forall k :: s.first <= k < s.last ==> u[k] == 0)
    && (forall k :: 0 <= k < |tape| && (forall s :: s in sites && Due(tape, s) ==> !(s.first <= k <= s.last))
          ==> u[k] == tape[k])
  }

  lemma {:induction false} FixRewrites(tape: seq<byte>, sites: seq<Site>)
    requires Ascending(sites)
    ensures RewrittenTo(tape, sites, Fix(tape, sites))
    decreases |sites|
  {
    if sites != [] && sites[0].last < |tape| {
      var s, rest := sites[0], sites[1..];
      assert forall i :: 0 <= i < |rest| ==> rest[i] == sites[i + 1];
      FixRewrites(FixOne(tape, s), rest);
      FirstRewritten(tape, s, rest, sites, FixOne(tape, s), Fix(tape, sites));
    } else if sites != [] {
      assert forall i :: 0 <= i < |sites| ==> sites[i].last >= |tape|;
    }
  }

  lemma FirstRewritten(tape: seq<byte>, s: Site, rest: seq<Site>, sites: seq<Site>, t: seq<byte>, u: seq<byte>)
    requires s.first <= s.last < |tape| && t == FixOne(tape, s) && RewrittenTo(t, rest, u)
    requires (forall x :: x in rest ==> s.last < x.first <= x.last) && forall x :: x in sites <==> x == s || x in rest
    ensures RewrittenTo(tape, sites, u)
  {
    assert forall k :: s.last < k < |tape| ==> t[k] == tape[k];
    assert forall x :: x in rest ==> (Due(t, x) <==> Due(tape, x));
    forall k | 0 <= k <= s.last
      ensures u[k] == t[k]
    {
    }
  }

  method Overwrite(test: array<byte>, first: nat, last: nat, value: byte)
    requires first <= last < test.Length
    modifies test
    ensures forall k :: 0 <= k < test.Length ==>
      test[k] == if k == last then value else if first <= k < last then 0 else old(test[k])
  {
    for b := first to last
      invariant forall k :: 0 <= k < test.Length ==> test[k] == if first <= k < b then 0 else old(test[k])
    {
      test[b] := 0;
    }
    test[last] := value;
  }

  method FixRangeConversions(test: array<byte>, conversions: seq<Site>)
    requires forall k :: 0 <= k < |conversions| ==> conversions[k].first <= conversions[k].last
    modifies test
    ensures test[..] == Fix(old(test[..]), conversions)
  {
    for i := 0 to |conversions|
      invariant Fix(old(test[..]), conversions) == Fix(test[..], conversions[i..])
    {
      var s := conversions[i];
      FixNext(test[..], conversions, i);
      if s.last >= test.Length {
        return;
      }
      FixConversion(test, s);
    }
  }

  /** One conversion inside the test. */
  method FixConversion(test: array<byte>, s: Site)
    requires s.first <= s.last < test.Length
    modifies test
    ensures test[..] == FixOne(old(test[..]), s)
  {
    if s.value >= 0 && s.value < 255 && s.value < test[s.last] {
      Overwrite(test, s.first, s.last, s.value);
    }
  }

  lemma FixNext(test: seq<byte>, sites: seq<Site>, i: nat)
    requires i < |sites|
    ensures Fix(test, sites[i..])
         == if sites[i].last >= |test| then test else Fix(FixOne(test, sites[i]), sites[i + 1..])
  {
    assert sites[i..][0] == sites[i] && sites[i..][1..] == sites[i + 1..];
  }

  /** All the sites lie at or after `k`. */
  ghost predicate From(sites: seq<Site>, k: nat) {
    forall j :: 0 <= j < |sites| ==> k <= sites[j].first <= sites[j].last
  }

  lemma {:induction false} SitesFrom(p: Program, f: Server, i: nat, depth: nat)
    ensures From(Sites(p, f, i, depth), i)
    decreases p
  {
    if p.Call? && !(p.req.LeaveOneOf? && depth == 0) && f(p.req, i).Reply? {
      LaterSitesFrom(p, f(p.req, i).value, f, i + f(p.req, i).used, Depth(p.req, depth));
    }
  }

  lemma LaterSitesFrom(p: Program, v: int, f: Server, i: nat, depth: nat)
    requires p.Call?
    ensures From(LaterSites(p, v, f, i, depth), i)
    decreases p, 0
  {
    if v in p.next {
      SitesFrom(p.next[v], f, i, depth);
    }
  }

  /** Tapes that agree from `k` on are rewritten alike from `k` on, and nothing
      before `k` is touched. */
  lemma {:induction false} FixFrom(a: seq<byte>, b: seq<byte>, sites: seq<Site>, k: nat)
    requires |a| == |b| && From(sites, k) && forall j: nat :: j >= k ==> At(a, j) == At(b, j)
    ensures forall j: nat :: j >= k ==> At(Fix(a, sites), j) == At(Fix(b, sites), j)
    ensures forall j: nat :: j < k ==> At(Fix(a, sites), j) == At(a, j)
    decreases |sites|
  {
    if sites != [] && sites[0].last < |a| {
      var s := sites[0];
      assert At(a, s.last) == At(b, s.last);
      FixOneFrom(a, b, s, k);
      FixFrom(FixOne(a, s), FixOne(b, s), sites[1..], k);
    }
  }

  lemma FixOneFrom(a: seq<byte>, b: seq<byte>, s: Site, k: nat)
    requires |a| == |b| && k <= s.first <= s.last && forall j: nat :: j >= k ==> At(a, j) == At(b, j)
    ensures forall j: nat :: j >= k ==> At(FixOne(a, s), j) == At(FixOne(b, s), j)
    ensures forall j: nat :: j < k ==> At(FixOne(a, s), j) == At(a, j)
  {
    assert s.last < |a| ==> At(a, s.last) == At(b, s.last);
    assert Applies(a, s) == Applies(b, s);
    if Applies(a, s) {
      forall j: nat | j >= k
        ensures At(FixOne(a, s), j) == At(FixOne(b, s), j)
      {
        assert At(a, j) == At(b, j);
      }
    }
  }

  /** A rewrite keeps the length and lowers the test as a big-endian number,
      unless it changes nothing. */
  lemma {:induction false} FixLowers(tape: seq<byte>, sites: seq<Site>)
    ensures Fix(tape, sites) == tape || BigEndian(Fix(tape, sites)) < BigEndian(tape)
    decreases |sites|
  {
    if sites != [] && sites[0].last < |tape| {
      FixOneLowers(tape, sites[0]);
      FixLowers(FixOne(tape, sites[0]), sites[1..]);
    }
  }

  lemma FixOneLowers(tape: seq<byte>, s: Site)
    ensures FixOne(tape, s) == tape || BigEndian(FixOne(tape, s)) < BigEndian(tape)
  {
    if Applies(tape, s) {
      var fixed := FixOne(tape, s);
      var k := s.first;
      while k < s.last && tape[k] == 0
        invariant s.first <= k <= s.last && fixed[..k] == tape[..k]
      {
        assert fixed[k] == 0;
        assert fixed[..k + 1] == fixed[..k] + [fixed[k]] && tape[..k + 1] == tape[..k] + [tape[k]];
        k := k + 1;
      }
      BigEndianOrder(fixed, tape, k);
    }
  }

  // ----- the rewritten test runs alike

  /** A log without its conversion lines. */
  function Trace(log: seq<Event>): seq<Event> {
    if log == [] then []
    else (if log[0].Converting? then [] else [log[0]]) + Trace(log[1..])
  }

  lemma {:induction false} TraceConcat(a: seq<Event>, b: seq<Event>)
    ensures Trace(a + b) == Trace(a) + Trace(b)
  {
    if a == [] {
      assert a + b == b;
    } else {
      assert (a + b)[1..] == a[1..] + b;
      TraceConcat(a[1..], b);
    }
  }

  /** Two runs that differ at most in the conversion lines of their logs. */
  ghost predicate Alike(a: Run, b: Run) {
    && a.values == b.values && a.output == b.output && a.index == b.index && a.exit == b.exit
    && Trace(a.log) == Trace(b.log)
  }

  ghost predicate NoneApplies(tape: seq<byte>, sites: seq<Site>) {
    forall k :: 0 <= k < |sites| ==> !Applies(tape, sites[k])
  }

  /** Reading zeros and the converted value returns that value, unconverted. */
  lemma FixedRead(req: Request, tape: seq<byte>, u: seq<byte>, i: nat)
    requires Answer(req, tape, i).Reply? && SitesOf(Answer(req, tape, i), i) != []
    requires var s := SitesOf(Answer(req, tape, i), i)[0];
      Applies(tape, s) && forall j: nat :: i <= j <= s.last ==> At(u, j) == At(FixOne(tape, s), j)
    ensures var a := Answer(req, tape, i);
      Answer(req, u, i) == Reply(a.value, MultiLog(i, a.used), a.used)
      && a.log == MultiLog(i, a.used) + [Converting(a.value)]
  {
    var a := Answer(req, tape, i);
    var s := SitesOf(a, i)[0];
    var n := a.used;
    assert MultiLog(i, n)[n + 1] == FinishMulti;
    var w := Window(u, i, n);
    forall k | 0 <= k < n
      ensures w[k] == if k == n - 1 then a.value else 0
    {
      assert At(u, i + k) == At(FixOne(tape, s), i + k);
    }
    BigEndianOfZeros(w, a.value);
    ClampSettles(req.range, Decode(req.range.ty, tape, i));
  }

  ghost predicate AgreeFrom(a: seq<byte>, b: seq<byte>, i: nat) {
    forall j: nat :: j >= i ==> At(a, j) == At(b, j)
  }

  /** If `u` is the tape with the reads of reply `a` rewritten, then `c` returns
      the same value, uses as many bytes and leaves nothing to rewrite. */
  ghost predicate FixedReply(a: Reply, c: Reply, tape: seq<byte>, u: seq<byte>, i: nat) {
    if a.InputExceeded? then c == a
    else
      AgreeOn(u, Fix(tape, SitesOf(a, i)), i, i + a.used) ==>
        && c.Reply? && c.value == a.value && c.used == a.used && Trace(c.log) == Trace(a.log)
        && NoneApplies(u, SitesOf(c, i))
  }

  lemma FixedAnswer(req: Request, tape: seq<byte>, u: seq<byte>, i: nat)
    requires |u| == |tape|
    ensures FixedReply(Answer(req, tape, i), Answer(req, u, i), tape, u, i)
  {
    var a := Answer(req, tape, i);
    var sites := SitesOf(a, i);
    if a.Reply? && AgreeOn(u, Fix(tape, sites), i, i + a.used) {
      if sites != [] && Applies(tape, sites[0]) {
        assert Fix(FixOne(tape, sites[0]), sites[1..]) == FixOne(tape, sites[0]);
        FixedRead(req, tape, u, i);
        TraceOfConverted(i, a.used, a.value);
      } else {
        assert Fix(tape, sites) == tape;
        AnswerLocal(req, tape, u, i);
        NotApplied(tape, u, a, i);
      }
    }
  }

  lemma NotApplied(tape: seq<byte>, u: seq<byte>, a: Reply, i: nat)
    requires a.Reply? && |u| == |tape| && NoneApplies(tape, SitesOf(a, i)) && AgreeOn(tape, u, i, i + a.used)
    ensures NoneApplies(u, SitesOf(a, i))
  {
    if SitesOf(a, i) != [] {
      assert At(u, i + a.used - 1) == At(tape, i + a.used - 1);
      assert !Applies(tape, SitesOf(a, i)[0]);
    }
  }

  lemma TraceOfConverted(i: nat, n: nat, v: int)
    ensures Trace(MultiLog(i, n) + [Converting(v)]) == Trace(MultiLog(i, n))
    ensures n > 0 ==> SitesOf(Reply(v, MultiLog(i, n), n), i) == []
  {
    TraceConcat(MultiLog(i, n), [Converting(v)]);
    assert [Converting(v)][1..] == [];
    assert MultiLog(i, n)[n + 1] == FinishMulti;
  }

  lemma PrependAlike(v: int, la: seq<Event>, lb: seq<Event>, lines: seq<string>, a: Run, b: Run)
    requires Alike(a, b) && Trace(la) == Trace(lb)
    ensures Alike(Prepend(v, la, lines, a), Prepend(v, lb, lines, b))
  {
    TraceConcat(la, a.log);
    TraceConcat(lb, b.log);
  }

  lemma FixSplit(tape: seq<byte>, a: seq<Site>, b: seq<Site>)
    requires |a| <= 1 && (a != [] ==> From(a, 0) && From(b, a[0].last + 1))
    ensures Fix(tape, a + b) == Fix(Fix(tape, a), b)
  {
    if a == [] {
      assert a + b == b;
    } else {
      assert (a + b)[0] == a[0] && (a + b)[1..] == b && a[1..] == [];
    }
  }

  lemma NoneConcat(u: seq<byte>, a: seq<Site>, b: seq<Site>)
    requires NoneApplies(u, a) && NoneApplies(u, b)
    ensures NoneApplies(u, a + b)
  {
  }

  /** The reply on the rewritten tape, with nothing left to rewrite. */
  ghost predicate SameReply(a: Reply, c: Reply, u: seq<byte>, i: nat) {
    && a.Reply? && c.Reply? && c.value == a.value && c.used == a.used && Trace(c.log) == Trace(a.log)
    && NoneApplies(u, SitesOf(c, i))
  }

  lemma ReplySettled(a: Reply, c: Reply, tape: seq<byte>, u: seq<byte>, i: nat, later: seq<Site>)
    requires a.Reply? && FixedReply(a, c, tape, u, i) && From(later, i + a.used)
    requires AgreeFrom(u, Fix(tape, SitesOf(a, i) + later), i)
    ensures SameReply(a, c, u, i) && AgreeFrom(u, Fix(tape, later), i + a.used)
  {
    FixSplitAt(tape, u, SitesOf(a, i), later, i, i + a.used);
  }

  lemma SitesUnroll(p: Program, f: Server, i: nat, depth: nat)
    requires Answered(p, f, i, depth)
    ensures var a := f(p.req, i);
      Sites(p, f, i, depth) == SitesOf(a, i) + LaterSites(p, a.value, f, i + a.used, Depth(p.req, depth))
  {
  }

  /** What the first call of a rewritten run settles. */
  lemma RewrittenCall(p: Program, f: Server, g: Server, a: Reply, tape: seq<byte>, u: seq<byte>, i: nat, depth: nat)
    requires Answered(p, f, i, depth) && a == f(p.req, i) && FixedReply(a, g(p.req, i), tape, u, i)
    requires AgreeFrom(u, Fix(tape, Sites(p, f, i, depth)), i)
    ensures SameReply(a, g(p.req, i), u, i)
    ensures AgreeFrom(u, Fix(tape, LaterSites(p, a.value, f, i + a.used, Depth(p.req, depth))), i + a.used)
  {
    var later := LaterSites(p, a.value, f, i + a.used, Depth(p.req, depth));
    LaterSitesFrom(p, a.value, f, i + a.used, Depth(p.req, depth));
    SitesUnroll(p, f, i, depth);
    ReplySettled(a, g(p.req, i), tape, u, i, later);
  }

  ghost predicate FixesAll(f: Server, g: Server, tape: seq<byte>, u: seq<byte>) {
    forall req, j: nat :: FixedReply(f(req, j), g(req, j), tape, u, j)
  }

  /** The run on `u` is alike, and nothing in it is left to rewrite. */
  ghost predicate Rewrites(p: Program, f: Server, g: Server, u: seq<byte>, i: nat, depth: nat) {
    Alike(RunFrom(p, g, i, depth), RunFrom(p, f, i, depth)) && NoneApplies(u, Sites(p, g, i, depth))
  }

  lemma {:induction false} Rewritten(p: Program, f: Server, g: Server, tape: seq<byte>, u: seq<byte>, i: nat,
                                     depth: nat)
    requires |u| == |tape| && FixesAll(f, g, tape, u)
    requires AgreeFrom(u, Fix(tape, Sites(p, f, i, depth)), i)
    ensures Rewrites(p, f, g, u, i, depth)
    decreases p, 1
  {
    if Answered(p, f, i, depth) {
      var a, d := f(p.req, i), Depth(p.req, depth);
      assert FixedReply(a, g(p.req, i), tape, u, i);
      RewrittenCall(p, f, g, a, tape, u, i, depth);
      RewrittenNext(p, f, g, tape, u, i + a.used, d, a.value);
      RewrittenPrepend(p, f, g, a, u, i, depth);
    } else {
      RewrittenEnd(p, f, g, tape, u, i, depth);
    }
  }

  lemma RewrittenNext(p: Program, f: Server, g: Server, tape: seq<byte>, u: seq<byte>, i: nat, depth: nat, v: int)
    requires |u| == |tape| && FixesAll(f, g, tape, u) && p.Call?
    requires AgreeFrom(u, Fix(tape, LaterSites(p, v, f, i, depth)), i)
    ensures v in p.next ==> Rewrites(p.next[v], f, g, u, i, depth)
    decreases p, 0
  {
    if v in p.next {
      Rewritten(p.next[v], f, g, tape, u, i, depth);
    }
  }

  lemma RewrittenEnd(p: Program, f: Server, g: Server, tape: seq<byte>, u: seq<byte>, i: nat, depth: nat)
    requires FixesAll(f, g, tape, u) && !Answered(p, f, i, depth)
    ensures Rewrites(p, f, g, u, i, depth)
  {
    if p.Call? {
      assert FixedReply(f(p.req, i), g(p.req, i), tape, u, i);
      NoCall(p, f, i, depth);
      NoCall(p, g, i, depth);
    }
  }

  lemma RewrittenPrepend(p: Program, f: Server, g: Server, a: Reply, u: seq<byte>, i: nat, depth: nat)
    requires Answered(p, f, i, depth) && a == f(p.req, i) && SameReply(a, g(p.req, i), u, i)
    requires a.value in p.next ==> Rewrites(p.next[a.value], f, g, u, i + a.used, Depth(p.req, depth))
    ensures Rewrites(p, f, g, u, i, depth)
  {
    var c := g(p.req, i);
    UnrollRun(p, f, i, depth);
    UnrollRun(p, g, i, depth);
    PrependAlike(a.value, c.log, a.log, Printed(p.req), After(p, g, i, depth), After(p, f, i, depth));
    SitesUnroll(p, g, i, depth);
    NoneConcat(u, SitesOf(c, i), LaterSites(p, a.value, g, i + a.used, Depth(p.req, depth)));
  }

  lemma FixSplitAt(tape: seq<byte>, u: seq<byte>, here: seq<Site>, later: seq<Site>, i: nat, k: nat)
    requires i <= k && |here| <= 1 && (here != [] ==> i <= here[0].first <= here[0].last < k)
    requires here != [] ==> here[0].last + 1 == k
    requires From(later, k)
    requires AgreeFrom(u, Fix(tape, here + later), i)
    ensures AgreeOn(u, Fix(tape, here), i, k)
    ensures AgreeFrom(u, Fix(tape, later), k)
  {
    FixSplit(tape, here, later);
    FixHere(tape, here, k);
    FixFrom(Fix(tape, here), tape, later, k);
  }

  lemma FixHere(tape: seq<byte>, here: seq<Site>, k: nat)
    requires |here| <= 1 && (here != [] ==> here[0].last < k)
    ensures forall j: nat :: j >= k ==> At(Fix(tape, here), j) == At(tape, j)
  {
    if here != [] && here[0].last < |tape| {
      assert Fix(FixOne(tape, here[0]), here[1..]) == FixOne(tape, here[0]);
    }
  }

  lemma {:induction false} NothingToFix(tape: seq<byte>, sites: seq<Site>)
    requires NoneApplies(tape, sites)
    ensures Fix(tape, sites) == tape
    decreases |sites|
  {
    if sites != [] && sites[0].last < |tape| {
      NothingToFix(tape, sites[1..]);
    }
  }

  lemma {:induction false} SitesAscend(p: Program, f: Server, i: nat, depth: nat)
    ensures Ascending(Sites(p, f, i, depth))
    decreases p
  {
    if Answered(p, f, i, depth) {
      var a, d := f(p.req, i), Depth(p.req, depth);
      SitesUnroll(p, f, i, depth);
      LaterSitesFrom(p, a.value, f, i + a.used, d);
      if a.value in p.next {
        SitesAscend(p.next[a.value], f, i + a.used, d);
      }
      OneBefore(SitesOf(a, i), LaterSites(p, a.value, f, i + a.used, d), i + a.used);
    }
  }

  lemma OneBefore(here: seq<Site>, later: seq<Site>, k: nat)
    requires |here| <= 1 && (here != [] ==> here[0].first <= here[0].last < k)
    requires From(later, k) && Ascending(later)
    ensures Ascending(here + later)
  {
  }

  /** Range rewriting is complete: every conversion that the run prints for a byte of
      the tape, to a byte below it, is put on the tape, nothing else is changed, and
      the rewritten run prints none of the kind. */
  lemma RewriteIsComplete(p: Program, tape: seq<byte>)
    ensures var u := Fix(tape, Conversions(Execute(p, tape).log));
      && RewrittenTo(tape, Conversions(Execute(p, tape).log), u)
      && forall s :: s in Conversions(Execute(p, u).log) ==>
           s.last >= |u| || s.value < 0 || s.value >= 255 || u[s.last] <= s.value
  {
    ParseRun(p, tape);
    SitesAscend(p, Serve(tape), 0, 0);
    FixRewrites(tape, Conversions(Execute(p, tape).log));
    NothingLeft(p, tape);
  }

  lemma NothingLeft(p: Program, tape: seq<byte>)
    ensures var u := Fix(tape, Conversions(Execute(p, tape).log));
      forall s :: s in Conversions(Execute(p, u).log) ==> !Due(u, s)
  {
    var u := Fix(tape, Conversions(Execute(p, tape).log));
    ParseRun(p, tape);
    ParseRun(p, u);
    SitesFrom(p, Serve(u), 0, 0);
    forall req, j: nat
      ensures FixedReply(Answer(req, tape, j), Answer(req, u, j), tape, u, j)
    {
      FixedAnswer(req, tape, u, j);
    }
    Rewritten(p, Serve(tape), Serve(u), tape, u, 0, 0);
  }

  /** Range rewriting preserves meaning: for every harness and tape the rewritten
      tape gives the same values, output, read positions and exit, and rewriting
      it again changes nothing. */
  lemma RewritePreservesMeaning(p: Program, tape: seq<byte>)
    ensures var u := Fix(tape, Conversions(Execute(p, tape).log));
      && Alike(Execute(p, u), Execute(p, tape))
      && Fix(u, Conversions(Execute(p, u).log)) == u
      && |u| == |tape| && (u == tape || BigEndian(u) < BigEndian(tape))
  {
    ParseRun(p, tape);
    var f := Serve(tape);
    var u := Fix(tape, Sites(p, f, 0, 0));
    forall req, j: nat
      ensures FixedReply(Answer(req, tape, j), Answer(req, u, j), tape, u, j)
    {
      FixedAnswer(req, tape, u, j);
    }
    Rewritten(p, f, Serve(u), tape, u, 0, 0);
    ParseRun(p, u);
    NothingToFix(u, Sites(p, Serve(u), 0, 0));
    FixLowers(tape, Sites(p, f, 0, 0));
  }
}
