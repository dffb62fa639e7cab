/** How a test's verdict is reached, twice: by the native runner, and by the
    symbolic front end that hooks the same calls. */
module Verdicts {

  /** Debug, Trace, Info, Warning, Error, External and Fatal, in this order. */
  type Level = l: nat | l < 7

  const ERROR: Level := 4
  const FATAL: Level := 6

  /** DeepFuzzy_StreamSize. */
  const STREAM_SIZE: nat := 1048576

  /** What a test does that bears on its verdict. */
  datatype Event =
    | SoftFail
    | Fail
    | Abandon
    | Assume(holds: bool)
    | Log(level: Level)
    | Piece(level: Level, len: nat)   // a streamed value, formatted to `len` characters
    | Flush(level: Level)
    | Clear(level: Level)
    | Pass

  datatype Verdict = Passed | Failed | Abandoned

  // ----- the native runner

  datatype Native = Native(result: Verdict, sizes: seq<nat>, jumped: bool) {
    predicate Valid() {
      |sizes| == 7
    }
  }

  /** The state in which a test begins. */
  function Fresh(): Native {
    Native(Passed, [0, 0, 0, 0, 0, 0, 0], false)
  }

  /** A log line of level `level`, when lines below `min` are dropped. */
  function Logged(n: Native, level: Level, min: nat): Native
    requires n.Valid()
  {
    if level < min then n
    else if level == ERROR then n.(result := Failed)
    else if level == FATAL then Native(Failed, n.sizes[level := 0], true)
    else n
  }

  function Stepped(n: Native, e: Event, min: nat): (m: Native)
    requires n.Valid()
    ensures m.Valid()
  {
    match e
    case SoftFail => n.(result := Failed)
    case Fail => n.(result := Failed, jumped := true)
    case Abandon => n.(result := Abandoned, jumped := true)
    case Assume(holds) => if holds then n else n.(result := Abandoned, jumped := true)
    case Log(level) => Logged(n, level, min)
    case Piece(level, len) =>
      if n.sizes[level] + len >= STREAM_SIZE then n.(result := Abandoned, jumped := true)
      else n.(sizes := n.sizes[level := n.sizes[level] + len])
    case Flush(level) =>
      if n.sizes[level] == 0 then n
      else
        var m := Logged(n, level, min);
        if m.jumped then m else m.(sizes := n.sizes[level := 0])
    case Clear(level) => n.(sizes := n.sizes[level := 0])
    case Pass => n.(jumped := true)
  }

  /** What the events leave behind, up to the jump out of the test. */
  function Ran(events: seq<Event>, min: nat): (n: Native)
    ensures n.Valid()
  {
    if events == [] then Fresh()
    else
      var before := Ran(events[..|events| - 1], min);
      if before.jumped then before else Stepped(before, events[|events| - 1], min)
  }

  lemma {:induction false} JumpedStays(events: seq<Event>, k: nat, min: nat)
    requires k <= |events| && Ran(events[..k], min).jumped
    ensures Ran(events, min) == Ran(events[..k], min)
    decreases |events|
  {
    if k < |events| {
      var front := events[..|events| - 1];
      assert front[..k] == events[..k];
      JumpedStays(front, k, min);
    } else {
      assert events[..k] == events;
    }
  }

  /** DeepFuzzy_CurrentTestRun and the streams. */
  class NativeRunner {
    const minLevel: nat
    var result: Verdict
    var sizes: seq<nat>
    var jumped: bool

    ghost function State(): Native
      reads this
    {
      Native(result, sizes, jumped)
    }

    constructor (minLevel: nat)
      ensures State() == Fresh() && this.minLevel == minLevel
    {
      this.minLevel := minLevel;
      result, sizes, jumped := Passed, [0, 0, 0, 0, 0, 0, 0], false;
    }

    /** DeepFuzzy_Log. */
    method WriteLog(level: Level)
      requires |sizes| == 7
      modifies this
      ensures State() == Logged(old(State()), level, minLevel)
    {
      if level < minLevel {
        return;
      }
      if level == ERROR {
        result := Failed;
      } else if level == FATAL {
        sizes := sizes[level := 0];
        result, jumped := Failed, true;
      }
    }

    /** DeepFuzzy_LogStream. */
    method LogStream(level: Level)
      requires |sizes| == 7
      modifies this
      ensures State() == Stepped(old(State()), Flush(level), minLevel)
    {
      if sizes[level] != 0 {
        WriteLog(level);
        if !jumped {
          sizes := sizes[level := 0];
        }
      }
    }

    /** DeepFuzzy_Abandon: the reason is logged as an error first. */
    method AbandonTest()
      requires |sizes| == 7
      modifies this
      ensures State() == old(State()).(result := Abandoned, jumped := true)
    {
      WriteLog(ERROR);
      result, jumped := Abandoned, true;
    }

    method Step(e: Event)
      requires |sizes| == 7 && !jumped
      modifies this
      ensures State() == Stepped(old(State()), e, minLevel)
    {
      match e
      case SoftFail =>
        result := Failed;
      case Fail =>
        result, jumped := Failed, true;
      case Abandon =>
        AbandonTest();
      case Assume(holds) =>
        if !holds {
          result, jumped := Abandoned, true;
        }
      case Log(level) =>
        WriteLog(level);
      case Piece(level, len) =>
        if sizes[level] + len >= STREAM_SIZE {
          AbandonTest();
        } else {
          sizes := sizes[level := sizes[level] + len];
        }
      case Flush(level) =>
        LogStream(level);
      case Clear(level) =>
        sizes := sizes[level := 0];
      case Pass =>
        jumped := true;
    }

    /** DeepFuzzy_RunTestNoFork: the test passes if it runs to its end, and what the
        jump left behind decides. */
    method RunTest(events: seq<Event>) returns (v: Verdict)
      requires State() == Fresh()
      modifies this
      ensures v == Ran(events, minLevel).result
    {
      var i := 0;
      while i < |events| && !jumped
        invariant 0 <= i <= |events| && State() == Ran(events[..i], minLevel)
      {
        assert events[..i + 1][..i] == events[..i];
        Step(events[i]);
        i := i + 1;
      }
      if i < |events| {
        JumpedStays(events, i, minLevel);
      } else {
        assert events[..i] == events;
      }
      if result == Failed {
        v := Failed;
      } else if result == Abandoned {
        v := Abandoned;
      } else {
        v := Passed;
      }
    }
  }

  // ----- the symbolic front end

  datatype Context = Context(failed: bool, abandoned: bool, streams: seq<seq<nat>>, stopped: bool) {
    predicate Valid() {
      |streams| == 7
    }

    /** The test is saved as failing or as passing, or not at all. */
    function Classification(): Verdict {
      if abandoned then Abandoned else if failed then Failed else Passed
    }
  }

  function Begun(): Context {
    Context(false, false, [[], [], [], [], [], [], []], false)
  }

  /** What a line of level `level` does to the verdict. */
  function Raised(c: Context, level: Level): Context {
    if level == FATAL then c.(failed := true, stopped := true)
    else if level == ERROR then c.(failed := true)
    else c
  }

  function Flushed(c: Context, level: Level): Context
    requires c.Valid()
  {
    if c.streams[level] == [] then c else Raised(c.(streams := c.streams[level := []]), level)
  }

  function Hooked(c: Context, e: Event): (d: Context)
    requires c.Valid()
    ensures d.Valid()
  {
    match e
    case SoftFail => c.(failed := true)
    case Fail => c.(failed := true, stopped := true)
    case Abandon => c.(abandoned := true, stopped := true)
    case Assume(holds) => if holds then c else c.(abandoned := true, stopped := true)
    case Log(level) =>
      var d := Flushed(c, level);
      if d.stopped then d else Raised(d, level)
    case Piece(level, len) => c.(streams := c.streams[level := c.streams[level] + [len]])
    case Flush(level) => Flushed(c, level)
    case Clear(level) => c.(streams := c.streams[level := []])
    case Pass => c.(stopped := true)
  }

  function Explored(events: seq<Event>): (c: Context)
    ensures c.Valid()
  {
    if events == [] then Begun()
    else
      var before := Explored(events[..|events| - 1]);
      if before.stopped then before else Hooked(before, events[|events| - 1])
  }

  lemma {:induction false} StoppedStays(events: seq<Event>, k: nat)
    requires k <= |events| && Explored(events[..k]).stopped
    ensures Explored(events) == Explored(events[..k])
    decreases |events|
  {
    if k < |events| {
      var front := events[..|events| - 1];
      assert front[..k] == events[..k];
      StoppedStays(front, k);
    } else {
      assert events[..k] == events;
    }
  }

  /** The context dictionary of one state, and the hooks that update it. */
  class Frontend {
    var failed: bool
    var abandoned: bool
    var streams: seq<seq<nat>>
    var stopped: bool

    ghost function State(): Context
      reads this
    {
      Context(failed, abandoned, streams, stopped)
    }

    constructor ()
      ensures State() == Begun()
    {
      failed, abandoned, streams, stopped := false, false, [[], [], [], [], [], [], []], false;
    }

    method ApiFail()
      modifies this
      ensures State() == old(State()).(failed := true, stopped := true)
    {
      failed := true;
      stopped := true;
    }

    method ApiPass()
      modifies this
      ensures State() == old(State()).(stopped := true)
    {
      if failed {
        ApiFail();
      } else {
        stopped := true;
      }
    }

    method AbandonTest()
      modifies this
      ensures State() == old(State()).(abandoned := true, stopped := true)
    {
      abandoned := true;
      stopped := true;
    }

    method ApiLogStream(level: Level)
      requires |streams| == 7
      modifies this
      ensures State() == Flushed(old(State()), level)
    {
      if streams[level] != [] {
        streams := streams[level := []];
        if level == FATAL {
          ApiFail();
        } else if level == ERROR {
          failed := true;
        }
      }
    }

    method ApiLog(level: Level)
      requires |streams| == 7 && !stopped
      modifies this
      ensures State() == Hooked(old(State()), Log(level))
    {
      ApiLogStream(level);
      if stopped {
        return;
      }
      if level == FATAL {
        ApiFail();
      } else if level == ERROR {
        failed := true;
      }
    }

    method Hook(e: Event)
      requires |streams| == 7 && !stopped
      modifies this
      ensures State() == Hooked(old(State()), e)
    {
      match e
      case SoftFail =>
        failed := true;
      case Fail =>
        ApiFail();
      case Abandon =>
        AbandonTest();
      case Assume(holds) =>
        if !holds {
          AbandonTest();
        }
      case Log(level) =>
        ApiLog(level);
      case Piece(level, len) =>
        streams := streams[level := streams[level] + [len]];
      case Flush(level) =>
        ApiLogStream(level);
      case Clear(level) =>
        streams := streams[level := []];
      case Pass =>
        ApiPass();
    }

    /** One explored path, and what the test is saved as. */
    method Explore(events: seq<Event>) returns (v: Verdict)
      requires State() == Begun()
      modifies this
      ensures v == Explored(events).Classification()
    {
      var i := 0;
      while i < |events| && !stopped
        invariant 0 <= i <= |events| && State() == Explored(events[..i])
      {
        assert events[..i + 1][..i] == events[..i];
        Hook(events[i]);
        i := i + 1;
      }
      if i < |events| {
        StoppedStays(events, i);
      } else {
        assert events[..i] == events;
      }
      if !stopped {
        ApiPass();
      }
      if abandoned {
        return Abandoned;
      }
      v := if failed then Failed else Passed;
    }
  }

  // ----- what the two verdicts mean

  predicate Deciding(level: Level) {
    level == ERROR || level == FATAL
  }

  /** How many pieces, and how many characters, were streamed to a level since it was
      last flushed or cleared. */
  function Pieces(events: seq<Event>, level: Level): nat {
    if events == [] then 0
    else match events[|events| - 1]
      case Piece(l, _) => Pieces(events[..|events| - 1], level) + if l == level then 1 else 0
      case Flush(l) => if l == level then 0 else Pieces(events[..|events| - 1], level)
      case Clear(l) => if l == level then 0 else Pieces(events[..|events| - 1], level)
      case _ => Pieces(events[..|events| - 1], level)
  }

  function Chars(events: seq<Event>, level: Level): nat {
    if events == [] then 0
    else match events[|events| - 1]
      case Piece(l, len) => Chars(events[..|events| - 1], level) + if l == level then len else 0
      case Flush(l) => if l == level then 0 else Chars(events[..|events| - 1], level)
      case Clear(l) => if l == level then 0 else Chars(events[..|events| - 1], level)
      case _ => Chars(events[..|events| - 1], level)
  }

  /** The pieces that the front end holds: it flushes a stream, too, when a line of
      its level is logged. */
  function Entries(events: seq<Event>, level: Level): nat {
    if events == [] then 0
    else match events[|events| - 1]
      case Piece(l, _) => Entries(events[..|events| - 1], level) + if l == level then 1 else 0
      case Flush(l) => if l == level then 0 else Entries(events[..|events| - 1], level)
      case Clear(l) => if l == level then 0 else Entries(events[..|events| - 1], level)
      case Log(l) => if l == level then 0 else Entries(events[..|events| - 1], level)
      case _ => Entries(events[..|events| - 1], level)
  }

  /** Who looks at the test: the runner, which drops lines below `min`, or the symbolic
      front end. */
  datatype Observer = Runner(min: nat) | Explorer

  /** The streamed value does not fit its buffer. */
  predicate Overflows(past: seq<Event>, e: Event) {
    e.Piece? && Chars(past, e.level) + e.len >= 1048576
  }

  /** The front end has no buffer to overflow. */
  predicate Abandons(past: seq<Event>, e: Event, who: Observer) {
    e.Abandon? || e == Assume(false) || (who.Runner? && Overflows(past, e))
  }

  /** A line is logged at a level: by itself, or as what a stream holds.  The runner
      asks for a character and may drop the line, the front end asks for a piece. */
  predicate Logs(past: seq<Event>, e: Event, level: Level, who: Observer) {
    match who
    case Runner(min) => min <= level && (e == Log(level) || (e == Flush(level) && Chars(past, level) > 0))
    case Explorer => e == Log(level) || (e == Flush(level) && Entries(past, level) > 0)
  }

  predicate Fails(past: seq<Event>, e: Event, who: Observer) {
    e.SoftFail? || e.Fail? || Logs(past, e, ERROR, who) || Logs(past, e, FATAL, who)
  }

  predicate Ends(past: seq<Event>, e: Event, who: Observer) {
    e.Fail? || e.Pass? || Abandons(past, e, who) || Logs(past, e, FATAL, who)
  }

  /** The observer gets as far as event `k`. */
  ghost predicate Reached(events: seq<Event>, k: nat, who: Observer) {
    k < |events| && forall j :: 0 <= j < k ==> !Ends(events[..j], events[j], who)
  }

  ghost predicate WasAbandoned(events: seq<Event>, who: Observer) {
    exists k: nat :: Reached(events, k, who) && Abandons(events[..k], events[k], who)
  }

  ghost predicate HasFailed(events: seq<Event>, who: Observer) {
    exists k: nat :: Reached(events, k, who) && Fails(events[..k], events[k], who)
  }

  ghost predicate HasEnded(events: seq<Event>, who: Observer) {
    exists k: nat :: k < |events| && Ends(events[..k], events[k], who)
  }

  /** Abandoned if an event that abandons the test is reached, else failed if one that
      fails it is, else passed. */
  ghost function Meaning(events: seq<Event>, who: Observer): Verdict {
    if WasAbandoned(events, who) then Abandoned else if HasFailed(events, who) then Failed else Passed
  }

  lemma ReachedFront(events: seq<Event>, k: nat, who: Observer)
    requires k < |events| - 1
    ensures Reached(events, k, who) <==> Reached(events[..|events| - 1], k, who)
    ensures events[..|events| - 1][..k] == events[..k]
  {
    var front := events[..|events| - 1];
    assert forall j :: 0 <= j <= k ==> front[..j] == events[..j] && front[j] == events[j];
  }

  /** One more event: what had happened, and what it does if it is reached. */
  lemma OneMoreEvent(events: seq<Event>, who: Observer)
    requires events != []
    ensures var (front, last) := (events[..|events| - 1], events[|events| - 1]);
      && (HasEnded(events, who) <==> HasEnded(front, who) || Ends(front, last, who))
      && (WasAbandoned(events, who) <==>
          WasAbandoned(front, who) || (!HasEnded(front, who) && Abandons(front, last, who)))
      && (HasFailed(events, who) <==> HasFailed(front, who) || (!HasEnded(front, who) && Fails(front, last, who)))
  {
    var n := |events| - 1;
    var front := events[..n];
    forall k: nat | k < n
      ensures Reached(events, k, who) <==> Reached(front, k, who)
      ensures front[..k] == events[..k] && front[k] == events[k]
    {
      ReachedFront(events, k, who);
    }
    assert Reached(events, n, who) <==> !HasEnded(front, who);
  }

  /** The state of the runner says what has happened. */
  ghost predicate Tells(n: Native, events: seq<Event>, who: Observer) {
    && (n.jumped <==> HasEnded(events, who))
    && n.result == Meaning(events, who)
    && (!n.jumped ==> n.Valid() && forall level: Level :: n.sizes[level] == Chars(events, level))
  }

  lemma StepTells(n: Native, front: seq<Event>, e: Event, min: nat)
    requires Tells(n, front, Runner(min)) && !n.jumped
    ensures Tells(Stepped(n, e, min), front + [e], Runner(min))
  {
    var events := front + [e];
    assert events[..|events| - 1] == front;
    OneMoreEvent(events, Runner(min));
    EndedFirst(front, Runner(min));
  }

  /** What abandons a test ends it. */
  lemma EndedFirst(events: seq<Event>, who: Observer)
    ensures WasAbandoned(events, who) ==> HasEnded(events, who)
  {
  }

  lemma EndedTells(n: Native, events: seq<Event>, who: Observer)
    requires events != [] && Tells(n, events[..|events| - 1], who) && n.jumped
    ensures Tells(n, events, who)
  {
    OneMoreEvent(events, who);
  }

  lemma {:induction false} RunTells(events: seq<Event>, min: nat)
    ensures Tells(Ran(events, min), events, Runner(min))
  {
    if events != [] {
      var front, last := events[..|events| - 1], events[|events| - 1];
      RunTells(front, min);
      var before := Ran(front, min);
      if before.jumped {
        EndedTells(before, events, Runner(min));
      } else {
        StepTells(before, front, last, min);
        assert front + [last] == events;
      }
    }
  }

  /** The verdict of the runner, read off the events. */
  lemma NativeVerdict(events: seq<Event>, min: nat)
    ensures Ran(events, min).jumped <==> HasEnded(events, Runner(min))
    ensures Ran(events, min).result == Meaning(events, Runner(min))
  {
    RunTells(events, min);
  }

  /** The context of the front end says what has happened. */
  ghost predicate Decided(c: Context, events: seq<Event>) {
    && (c.stopped <==> HasEnded(events, Explorer))
    && (c.abandoned <==> WasAbandoned(events, Explorer))
    && (c.failed <==> HasFailed(events, Explorer))
  }

  ghost predicate Holds(c: Context, events: seq<Event>) {
    c.Valid() && forall level: Level :: |c.streams[level]| == Entries(events, level)
  }

  ghost predicate Knows(c: Context, events: seq<Event>) {
    Decided(c, events) && (!c.stopped ==> Holds(c, events))
  }

  lemma StepHolds(c: Context, front: seq<Event>, e: Event)
    requires Holds(c, front)
    ensures !Hooked(c, e).stopped ==> Holds(Hooked(c, e), front + [e])
  {
    assert (front + [e])[..|front|] == front;
  }

  lemma StepDecides(c: Context, front: seq<Event>, e: Event)
    requires Decided(c, front) && Holds(c, front) && !c.stopped
    ensures Decided(Hooked(c, e), front + [e])
  {
    var events := front + [e];
    assert events[..|events| - 1] == front;
    OneMoreEvent(events, Explorer);
    EventDecides(c, front, e);
  }

  lemma EventDecides(c: Context, front: seq<Event>, e: Event)
    requires Holds(c, front) && !c.stopped
    ensures var d := Hooked(c, e);
      && (d.stopped <==> Ends(front, e, Explorer))
      && (d.abandoned <==> c.abandoned || Abandons(front, e, Explorer))
      && (d.failed <==> c.failed || Fails(front, e, Explorer))
  {
  }

  lemma StepKnows(c: Context, front: seq<Event>, e: Event)
    requires Knows(c, front) && !c.stopped
    ensures Knows(Hooked(c, e), front + [e])
  {
    StepDecides(c, front, e);
    StepHolds(c, front, e);
  }

  lemma EndedKnows(c: Context, events: seq<Event>)
    requires events != [] && Knows(c, events[..|events| - 1]) && c.stopped
    ensures Knows(c, events)
  {
    OneMoreEvent(events, Explorer);
  }

  lemma {:induction false} PathKnows(events: seq<Event>)
    ensures Knows(Explored(events), events)
  {
    if events != [] {
      var front, last := events[..|events| - 1], events[|events| - 1];
      PathKnows(front);
      var before := Explored(front);
      if before.stopped {
        EndedKnows(before, events);
      } else {
        StepKnows(before, front, last);
        assert front + [last] == events;
      }
    }
  }

  /** The classification of the front end, read off the events. */
  lemma FrontendVerdict(events: seq<Event>)
    ensures Explored(events).stopped <==> HasEnded(events, Explorer)
    ensures Explored(events).Classification() == Meaning(events, Explorer)
  {
    PathKnows(events);
  }

  // ----- when they agree

  /** The two verdicts on a test. */
  predicate Agree(events: seq<Event>, min: nat) {
    Explored(events).Classification() == Ran(events, min).result
  }

  /** A stream that decides is flushed when it holds only empty pieces.  After a
      failure, another error stream cannot change the verdict. */
  ghost predicate Hollow(past: seq<Event>, e: Event, min: nat) {
    && e.Flush? && Deciding(e.level) && Pieces(past, e.level) > 0 && Chars(past, e.level) == 0
    && !(e.level == ERROR && HasFailed(past, Runner(min)))
  }

  /** Up to its end the test flushes hollow streams of the levels `hollow` only, and
      outgrows a buffer only if `overflow`. */
  ghost predicate Permitted(events: seq<Event>, min: nat, hollow: set<Level>, overflow: bool) {
    forall k: nat :: k < |events| && !HasEnded(events[..k], Runner(min)) ==>
      && (Hollow(events[..k], events[k], min) ==> events[k].level in hollow)
      && (Overflows(events[..k], events[k]) ==> overflow)
  }

  /** Both have ended with the same verdict, or both go on and agree so far.  Their
      streams may differ: the front end flushes one when a line of its level is logged. */
  ghost predicate Alike(n: Native, c: Context, events: seq<Event>) {
    if n.jumped then c.stopped && c.Classification() == n.result
    else
      && !c.stopped && !c.abandoned && n.result == c.Classification()
      && Entries(events, FATAL) == Pieces(events, FATAL)
      && (!c.failed ==> Entries(events, ERROR) == Pieces(events, ERROR))
  }

  lemma {:induction false} NoMoreCharsThanPieces(events: seq<Event>, level: Level)
    ensures Chars(events, level) > 0 ==> Pieces(events, level) > 0
  {
    if events != [] {
      NoMoreCharsThanPieces(events[..|events| - 1], level);
    }
  }

  /** One event that is neither a hollow flush nor an overflow keeps them alike. */
  lemma StepAgrees(n: Native, c: Context, front: seq<Event>, e: Event, min: nat)
    requires min <= ERROR && Tells(n, front, Runner(min)) && Knows(c, front)
    requires Alike(n, c, front) && !n.jumped && !Hollow(front, e, min) && !Overflows(front, e)
    ensures Alike(Stepped(n, e, min), Hooked(c, e), front + [e])
  {
    var events := front + [e];
    assert events[..|events| - 1] == front;
    NoMoreCharsThanPieces(front, ERROR);
    NoMoreCharsThanPieces(front, FATAL);
  }

  lemma PermittedFront(events: seq<Event>, min: nat)
    requires events != [] && Permitted(events, min, {}, false)
    ensures var (front, last) := (events[..|events| - 1], events[|events| - 1]);
      && Permitted(front, min, {}, false)
      && (!HasEnded(front, Runner(min)) ==> !Hollow(front, last, min) && !Overflows(front, last))
  {
    var n := |events| - 1;
    var front := events[..n];
    assert forall k: nat :: k < n ==> front[..k] == events[..k] && front[k] == events[k];
  }

  lemma {:induction false} RunsAgree(events: seq<Event>, min: nat)
    requires min <= ERROR && Permitted(events, min, {}, false)
    ensures Alike(Ran(events, min), Explored(events), events)
  {
    if events != [] {
      var front, last := events[..|events| - 1], events[|events| - 1];
      PermittedFront(events, min);
      RunsAgree(front, min);
      RunTells(front, min);
      PathKnows(front);
      var n, c := Ran(front, min), Explored(front);
      if !n.jumped {
        StepAgrees(n, c, front, last, min);
        assert front + [last] == events;
      }
    }
  }

  /** The verdicts on every permitted test agree exactly when error lines are not
      dropped, no hollow stream of a deciding level is flushed, and none overflows. */
  lemma VerdictsAgree(min: nat, hollow: set<Level>, overflow: bool)
    ensures (forall events :: Permitted(events, min, hollow, overflow) ==> Agree(events, min))
      <==> min <= ERROR && ERROR !in hollow && FATAL !in hollow && !overflow
  {
    if min <= ERROR && ERROR !in hollow && FATAL !in hollow && !overflow {
      forall events | Permitted(events, min, hollow, overflow)
        ensures Agree(events, min)
      {
        RunsAgree(events, min);
      }
    } else if min > ERROR {
      DroppedErrorDisagrees(min, hollow, overflow);
    } else if overflow {
      FullStreamDisagrees(ERROR, STREAM_SIZE, min, hollow);
    } else {
      HollowStreamDisagrees(if ERROR in hollow then ERROR else FATAL, min, hollow, overflow);
    }
  }

  lemma RanOne(e: Event, min: nat)
    ensures Ran([e], min) == Stepped(Fresh(), e, min)
    ensures Explored([e]) == Hooked(Begun(), e)
  {
    assert [e][..0] == [];
  }

  lemma RanTwo(e: Event, f: Event, min: nat)
    requires !Stepped(Fresh(), e, min).jumped && !Hooked(Begun(), e).stopped
    ensures Ran([e, f], min) == Stepped(Stepped(Fresh(), e, min), f, min)
    ensures Explored([e, f]) == Hooked(Hooked(Begun(), e), f)
  {
    RanOne(e, min);
    assert [e, f][..1] == [e];
  }

  /** An error line that the runner drops: the front end fails the test alone. */
  lemma DroppedErrorDisagrees(min: nat, hollow: set<Level>, overflow: bool)
    requires min > ERROR
    ensures Permitted([Log(ERROR)], min, hollow, overflow) && !Agree([Log(ERROR)], min)
  {
    RanOne(Log(ERROR), min);
  }

  /** An empty string streamed to a deciding level and flushed: the runner sees an
      empty stream and passes the test, the front end sees an entry and fails it. */
  lemma HollowStreamDisagrees(level: Level, min: nat, hollow: set<Level>, overflow: bool)
    requires Deciding(level) && level in hollow
    ensures Permitted([Piece(level, 0), Flush(level)], min, hollow, overflow)
    ensures !Agree([Piece(level, 0), Flush(level)], min)
  {
    RanTwo(Piece(level, 0), Flush(level), min);
    var events := [Piece(level, 0), Flush(level)];
    assert events[..0] == [];
  }

  /** Streaming more than the buffer holds abandons the test in the runner alone. */
  lemma FullStreamDisagrees(level: Level, len: nat, min: nat, hollow: set<Level>)
    requires len >= STREAM_SIZE
    ensures Permitted([Piece(level, len)], min, hollow, true) && !Agree([Piece(level, len)], min)
  {
    RanOne(Piece(level, len), min);
  }

  /** An empty piece in a stream that holds something is permitted, and both fail. */
  lemma EmptyPieceIsHarmless(len: nat, min: nat)
    requires 0 < len < STREAM_SIZE && min <= ERROR
    ensures var events := [Piece(ERROR, len), Piece(ERROR, 0), Flush(ERROR)];
      Permitted(events, min, {}, false) && Ran(events, min).result == Failed
  {
    var one, two := [Piece(ERROR, len)], [Piece(ERROR, len), Piece(ERROR, 0)];
    var events := [Piece(ERROR, len), Piece(ERROR, 0), Flush(ERROR)];
    assert events[..0] == one[..0] == [] && events[..1] == two[..1] == one && events[..2] == two;
    assert Chars(one, ERROR) == len;
    RanTwo(Piece(ERROR, len), Piece(ERROR, 0), min);
  }
}
