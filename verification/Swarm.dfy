/** Swarm configurations: restricted choice maps that are drawn from the tape the
    first time a call site asks for one, and remembered for the rest of the run. */
module Swarm {
  import opened Words
  import opened Programs

  const MAX_CONFIGS: nat := 1024
  const MAX_PROB_RATIO: nat := 16

  datatype Kind = Pure | Mixed | Prob

  /** What identifies a configuration. */
  datatype Key = Key(file: string, line: nat, count: nat)

  datatype Config = Config(key: Key, fmap: seq<nat>)

  type Table = seq<Config>

  /** The lookup compares lines and counts, and only the length of the asked file
      name; the kind plays no part. */
  predicate Matches(c: Config, key: Key) {
    c.key.line == key.line && c.key.count == key.count && key.file <= c.key.file
  }

  function Find(table: Table, key: Key): Option<seq<nat>> {
    if table == [] then None
    else if Matches(table[0], key) then Some(table[0].fmap)
    else Find(table[1..], key)
  }

  function Allocated(kind: Kind, count: nat): nat {
    if kind.Prob? then MAX_PROB_RATIO * count else count
  }

  /** A usable map: some choice, every choice an original one, in order, and no
      longer than what was allocated; without repetition unless weighted. */
  predicate WellFormed(fmap: seq<nat>, kind: Kind, count: nat) {
    && 0 < |fmap| <= Allocated(kind, count)
    && Choices(fmap, kind, count)
  }

  predicate Choices(fmap: seq<nat>, kind: Kind, below: nat) {
    && (forall i :: 0 <= i < |fmap| ==> fmap[i] < below)
    && (forall i, j :: 0 <= i < j < |fmap| ==> fmap[i] <= fmap[j] && (!kind.Prob? ==> fmap[i] != fmap[j]))
  }

  function Upto(n: nat): seq<nat> {
    seq(n, i => i)
  }

  function Repeat(x: nat, n: nat): seq<nat> {
    seq(n, _ => x)
  }

  // ----- the generator as part of a harness

  predicate Bit(b: int) {
    b == 0 || b == 1
  }

  predicate Within(v: int, n: int) {
    0 <= v < n
  }

  function Choice(n: nat): Range
    requires 0 < n <= 0x1_0000_0000
  {
    Bounds(UInt, 0, n - 1)
  }

  type Rest = seq<nat> -> Program

  ghost function Finish(n: nat, fmap: seq<nat>, k: Rest): Program
    requires 0 < n <= 0x1_0000_0000
  {
    if fmap == [] then Call(InRange(Choice(n)), imap j: int | Within(j, n) :: k([j])) else k(fmap)
  }

  ghost function GenPure(i: nat, n: nat, full: bool, fmap: seq<nat>, k: Rest): Program
    requires 0 < n <= 0x1_0000_0000
    decreases n - i
  {
    if i >= n then Finish(n, fmap, k)
    else if full then GenPure(i + 1, n, full, fmap + [i], k)
    else Call(Bool, imap b: int | Bit(b) :: GenPure(i + 1, n, full, if b == 1 then fmap + [i] else fmap, k))
  }

  ghost function GenProb(i: nat, n: nat, fmap: seq<nat>, k: Rest): Program
    requires 0 < n <= 0x1_0000_0000
    decreases n - i
  {
    if i >= n then Finish(n, fmap, k)
    else
      Call(InRange(Choice(MAX_PROB_RATIO + 1)),
           imap p: int | Within(p, MAX_PROB_RATIO + 1) :: GenProb(i + 1, n, fmap + Repeat(i, p), k))
  }

  ghost function Gen(kind: Kind, n: nat, k: Rest): Program
    requires 0 < n <= 0x1_0000_0000
  {
    match kind
    case Prob => GenProb(0, n, [], k)
    case Pure => GenPure(0, n, false, [], k)
    case Mixed => Call(Bool, imap b: int | Bit(b) :: GenPure(0, n, b == 1, [], k))
  }

  // ----- the map that the drawn values denote

  datatype Parsed = Parsed(fmap: seq<nat>, rest: seq<int>) | Incomplete

  function ParseFinish(n: nat, fmap: seq<nat>, vs: seq<int>): Parsed {
    if fmap != [] then Parsed(fmap, vs)
    else if vs == [] || !Within(vs[0], n) then Incomplete
    else Parsed([vs[0]], vs[1..])
  }

  function ParsePure(i: nat, n: nat, full: bool, fmap: seq<nat>, vs: seq<int>): Parsed
    decreases n - i
  {
    if i >= n then ParseFinish(n, fmap, vs)
    else if full then ParsePure(i + 1, n, full, fmap + [i], vs)
    else if vs == [] then Incomplete
    else ParsePure(i + 1, n, full, if vs[0] == 1 then fmap + [i] else fmap, vs[1..])
  }

  function ParseProb(i: nat, n: nat, fmap: seq<nat>, vs: seq<int>): Parsed
    decreases n - i
  {
    if i >= n then ParseFinish(n, fmap, vs)
    else if vs == [] || !Within(vs[0], MAX_PROB_RATIO + 1) then Incomplete
    else ParseProb(i + 1, n, fmap + Repeat(i, vs[0]), vs[1..])
  }

  function ParseGen(kind: Kind, n: nat, vs: seq<int>): Parsed {
    match kind
    case Prob => ParseProb(0, n, [], vs)
    case Pure => ParsePure(0, n, false, [], vs)
    case Mixed => if vs == [] then Incomplete else ParsePure(0, n, vs[0] == 1, [], vs[1..])
  }

  // ----- harnesses that ask for configurations

  datatype Harness =
    | Stop(exit: Exit)
    | Ask(req: Request, next: imap<int, Harness>)
    | Configure(key: Key, kind: Kind, choose: imap<seq<nat>, Harness>)

  /** The asked counts are positive and fit an unsigned. */
  ghost predicate Sensible(h: Harness)
    decreases h
  {
    match h
    case Stop(_) => true
    case Ask(_, next) => forall v :: v in next ==> Sensible(next[v])
    case Configure(key, _, choose) =>
      0 < key.count < 0x1_0000_0000 && forall m :: m in choose ==> Sensible(choose[m])
  }

  /** The same harness without configurations: the lookups are resolved, and a new
      configuration is drawn by calls of its own. */
  ghost function Plain(h: Harness, table: Table): Program
    requires Sensible(h)
    decreases h, 1
  {
    match h
    case Stop(exit) => Halt(exit)
    case Ask(req, next) => Call(req, imap v: int | v in next :: Plain(next[v], table))
    case Configure(key, kind, choose) =>
      var found := Find(table, key);
      if found.Some? then Chosen(h, found.value, table)
      else if |table| >= MAX_CONFIGS then Halt(Abandoned)
      else Gen(kind, key.count, fmap => Chosen(h, fmap, table + [Config(key, fmap)]))
  }

  ghost function Chosen(h: Harness, fmap: seq<nat>, table: Table): Program
    requires Sensible(h) && h.Configure?
    decreases h, 0
  {
    if fmap in h.choose then Plain(h.choose[fmap], table) else Halt(Crashed)
  }

  // ----- drawing a configuration from the tape

  /** A drawn map (none: the tape ran out), with the values, lines and position. */
  datatype Drawn = Drawn(fmap: Option<seq<nat>>, values: seq<int>, log: seq<Event>, at: nat)

  function Cons(v: int, log: seq<Event>, d: Drawn): Drawn {
    Drawn(d.fmap, [v] + d.values, log + d.log, d.at)
  }

  function Append(values: seq<int>, log: seq<Event>, d: Drawn): Drawn {
    Drawn(d.fmap, values + d.values, log + d.log, d.at)
  }

  function DrawFinish(f: Server, n: nat, fmap: seq<nat>, at: nat): Drawn
    requires 0 < n <= 0x1_0000_0000
  {
    if fmap != [] then Drawn(Some(fmap), [], [], at)
    else match f(InRange(Choice(n)), at)
      case InputExceeded => Drawn(None, [], [], at)
      case Reply(v, log, used) => Drawn(if v < 0 then None else Some([v]), [v], log, at + used)
  }

  function DrawPure(f: Server, i: nat, n: nat, full: bool, fmap: seq<nat>, at: nat): Drawn
    requires 0 < n <= 0x1_0000_0000
    decreases n - i
  {
    if i >= n then DrawFinish(f, n, fmap, at)
    else if full then DrawPure(f, i + 1, n, full, fmap + [i], at)
    else match f(Bool, at)
      case InputExceeded => Drawn(None, [], [], at)
      case Reply(v, log, used) =>
        Cons(v, log, DrawPure(f, i + 1, n, full, if v == 1 then fmap + [i] else fmap, at + used))
  }

  function Weight(): Request {
    InRange(Choice(MAX_PROB_RATIO + 1))
  }

  function DrawProb(f: Server, i: nat, n: nat, fmap: seq<nat>, at: nat): Drawn
    requires 0 < n <= 0x1_0000_0000
    decreases n - i
  {
    if i >= n then DrawFinish(f, n, fmap, at)
    else match f(Weight(), at)
      case InputExceeded => Drawn(None, [], [], at)
      case Reply(v, log, used) =>
        Cons(v, log, DrawProb(f, i + 1, n, fmap + Repeat(i, if v < 0 then 0 else v), at + used))
  }

  lemma ProbDrawn(f: Server, i: nat, n: nat, fmap: seq<nat>, at: nat, a: Reply)
    requires 0 < n <= 0x1_0000_0000 && i < n && f(Weight(), at) == a && a.Reply? && a.value >= 0
    ensures DrawProb(f, i, n, fmap, at)
         == Cons(a.value, a.log, DrawProb(f, i + 1, n, fmap + Repeat(i, a.value), at + a.used))
  {
  }

  function Draw(f: Server, kind: Kind, n: nat, at: nat): Drawn
    requires 0 < n <= 0x1_0000_0000
  {
    match kind
    case Prob => DrawProb(f, 0, n, [], at)
    case Pure => DrawPure(f, 0, n, false, [], at)
    case Mixed =>
      match f(Bool, at)
      case InputExceeded => Drawn(None, [], [], at)
      case Reply(v, log, used) => Cons(v, log, DrawPure(f, 0, n, v == 1, [], at + used))
  }

  /** The replies a generator relies on. */
  ghost predicate Honest(f: Server) {
    && (forall i: nat :: f(Bool, i).Reply? ==> Bit(f(Bool, i).value))
    && (forall n: nat, i: nat :: 0 < n <= 0x1_0000_0000 && f(InRange(Choice(n)), i).Reply?
          ==> Within(f(InRange(Choice(n)), i).value, n))
  }

  lemma TapeIsHonest(tape: seq<byte>)
    ensures Honest(Programs.Serve(tape))
  {
    forall n: nat, i: nat | 0 < n <= 0x1_0000_0000 && Answer(InRange(Choice(n)), tape, i).Reply?
      ensures Within(Answer(InRange(Choice(n)), tape, i).value, n)
    {
      if n > 1 {
        InRangeInBounds(Choice(n), Decode(UInt, tape, i));
      }
    }
  }

  /** Every drawn map is usable; a full draw is the identity. */
  lemma {:induction false} PureIsWellFormed(f: Server, i: nat, n: nat, full: bool, fmap: seq<nat>, at: nat, kind: Kind)
    requires 0 < n <= 0x1_0000_0000 && Honest(f) && i <= n && !kind.Prob?
    requires Choices(fmap, kind, i) && |fmap| <= i && (full ==> fmap == Upto(i))
    ensures var d := DrawPure(f, i, n, full, fmap, at);
      d.fmap.Some? ==> WellFormed(d.fmap.value, kind, n) && (full ==> d.fmap.value == Upto(n))
    decreases n - i
  {
    if i < n {
      if full {
        PureIsWellFormed(f, i + 1, n, full, fmap + [i], at, kind);
      } else if f(Bool, at).Reply? {
        var a := f(Bool, at);
        PureIsWellFormed(f, i + 1, n, full, if a.value == 1 then fmap + [i] else fmap, at + a.used, kind);
      }
    }
  }

  lemma RepeatChoices(fmap: seq<nat>, i: nat, p: nat)
    requires Choices(fmap, Prob, i)
    ensures Choices(fmap + Repeat(i, p), Prob, i + 1)
  {
  }

  lemma {:induction false} ProbIsWellFormed(f: Server, i: nat, n: nat, fmap: seq<nat>, at: nat)
    requires 0 < n <= 0x1_0000_0000 && Honest(f) && i <= n && Choices(fmap, Prob, i) && |fmap| <= MAX_PROB_RATIO * i
    ensures var d := DrawProb(f, i, n, fmap, at);
      d.fmap.Some? ==> WellFormed(d.fmap.value, Prob, n)
    decreases n - i
  {
    if i < n && f(Weight(), at).Reply? {
      var a := f(Weight(), at);
      assert Within(a.value, MAX_PROB_RATIO + 1);
      RepeatChoices(fmap, i, a.value);
      ProbIsWellFormed(f, i + 1, n, fmap + Repeat(i, a.value), at + a.used);
    }
  }

  lemma DrawIsWellFormed(f: Server, kind: Kind, n: nat, at: nat)
    requires 0 < n <= 0x1_0000_0000 && Honest(f)
    ensures var d := Draw(f, kind, n, at); d.fmap.Some? ==> WellFormed(d.fmap.value, kind, n)
  {
    match kind
    case Prob => ProbIsWellFormed(f, 0, n, [], at);
    case Pure => PureIsWellFormed(f, 0, n, false, [], at, kind);
    case Mixed =>
      if f(Bool, at).Reply? {
        var a := f(Bool, at);
        PureIsWellFormed(f, 0, n, a.value == 1, [], at + a.used, kind);
      }
  }

  // ----- the generator as part of a harness draws the same

  /** The run that returns the drawn values and then goes on as `r`. */
  function Then(d: Drawn, r: Run): Run {
    Run(d.values + r.values, d.log + r.log, r.output, r.index, r.exit)
  }

  /** The semantics of harnesses at one OneOf depth, as a function value. */
  type Runner = (Program, nat) -> Run

  ghost function RunAt(f: Server, depth: nat): Runner {
    (p: Program, at: nat) => RunFrom(p, f, at, depth)
  }

  /** What a generator's calls do under a runner. */
  ghost predicate Steps(run: Runner, f: Server) {
    && (forall at: nat :: run(Halt(Abandoned), at) == Run([], [], [], at, Abandoned))
    && (forall p: Program, at: nat :: Drawing(p) && f(p.req, at).InputExceeded?
          ==> run(p, at) == Run([], [], [], at, Abandoned))
    && (forall p: Program, at: nat :: Drawing(p) && f(p.req, at).Reply? && f(p.req, at).value in p.next
          ==> run(p, at) == Prepend(f(p.req, at).value, f(p.req, at).log, [],
                                    run(p.next[f(p.req, at).value], at + f(p.req, at).used)))
  }

  ghost predicate Drawing(p: Program) {
    p.Call? && (p.req.Bool? || p.req.InRange?)
  }

  lemma RunAtSteps(f: Server, depth: nat)
    ensures Steps(RunAt(f, depth), f)
  {
    forall p: Program, at: nat | Drawing(p) && f(p.req, at).Reply? && f(p.req, at).value in p.next
      ensures RunFrom(p, f, at, depth) == Prepend(f(p.req, at).value, f(p.req, at).log, [],
                                                  RunFrom(p.next[f(p.req, at).value], f, at + f(p.req, at).used, depth))
    {
      UnrollRun(p, f, at, depth);
    }
  }

  ghost function Onward(d: Drawn, run: Runner, k: Rest): Run {
    run(if d.fmap.Some? then k(d.fmap.value) else Halt(Abandoned), d.at)
  }

  ghost predicate Runs(p: Program, run: Runner, at: nat, d: Drawn, k: Rest) {
    run(p, at) == Then(d, Onward(d, run, k))
  }

  /** One more call in front. */
  lemma RunsCons(p: Program, q: Program, f: Server, run: Runner, at: nat, d: Drawn, k: Rest, a: Reply)
    requires Steps(run, f) && Drawing(p) && a == f(p.req, at) && a.Reply?
    requires a.value in p.next && p.next[a.value] == q
    requires Runs(q, run, at + a.used, d, k)
    ensures Runs(p, run, at, Cons(a.value, a.log, d), k)
  {
    var r := Onward(d, run, k);
    assert [a.value] + (d.values + r.values) == [a.value] + d.values + r.values;
    assert a.log + (d.log + r.log) == a.log + d.log + r.log;
    assert [] + r.output == r.output;
  }

  lemma RunsOut(p: Program, f: Server, run: Runner, at: nat, k: Rest)
    requires Steps(run, f) && Drawing(p) && f(p.req, at).InputExceeded?
    ensures Runs(p, run, at, Drawn(None, [], [], at), k)
  {
  }

  lemma FinishRuns(f: Server, run: Runner, n: nat, fmap: seq<nat>, at: nat, k: Rest)
    requires 0 < n <= 0x1_0000_0000 && Honest(f) && Steps(run, f)
    ensures Runs(Finish(n, fmap, k), run, at, DrawFinish(f, n, fmap, at), k)
  {
    var p, a := Finish(n, fmap, k), f(InRange(Choice(n)), at);
    if fmap != [] {
      var r := run(p, at);
      assert [] + r.values == r.values && [] + r.log == r.log;
    } else if a.InputExceeded? {
      RunsOut(p, f, run, at, k);
    } else {
      var d := Drawn(Some([a.value as nat]), [], [], at + a.used);
      var r := Onward(d, run, k);
      assert [] + r.values == r.values && [] + r.log == r.log;
      RunsCons(p, k([a.value as nat]), f, run, at, d, k, a);
      assert [a.value] + [] == [a.value] && a.log + [] == a.log;
    }
  }

  lemma {:induction false} PureRuns(f: Server, run: Runner, i: nat, n: nat, full: bool, fmap: seq<nat>, at: nat,
                                    k: Rest)
    requires 0 < n <= 0x1_0000_0000 && Honest(f) && Steps(run, f)
    ensures Runs(GenPure(i, n, full, fmap, k), run, at, DrawPure(f, i, n, full, fmap, at), k)
    decreases n - i
  {
    var p, a := GenPure(i, n, full, fmap, k), f(Bool, at);
    if i >= n {
      FinishRuns(f, run, n, fmap, at, k);
    } else if full {
      PureRuns(f, run, i + 1, n, full, fmap + [i], at, k);
    } else if a.InputExceeded? {
      RunsOut(p, f, run, at, k);
    } else {
      var more := if a.value == 1 then fmap + [i] else fmap;
      PureRuns(f, run, i + 1, n, full, more, at + a.used, k);
      RunsCons(p, GenPure(i + 1, n, full, more, k), f, run, at, DrawPure(f, i + 1, n, full, more, at + a.used), k, a);
    }
  }

  lemma ProbBranch(f: Server, run: Runner, i: nat, n: nat, fmap: seq<nat>, at: nat, k: Rest, a: Reply, d: Drawn)
    requires 0 < n <= 0x1_0000_0000 && i < n && Steps(run, f)
    requires f(Weight(), at) == a && a.Reply? && Within(a.value, MAX_PROB_RATIO + 1)
    requires Runs(GenProb(i + 1, n, fmap + Repeat(i, a.value), k), run, at + a.used, d, k)
    requires d == DrawProb(f, i + 1, n, fmap + Repeat(i, a.value), at + a.used)
    ensures Runs(GenProb(i, n, fmap, k), run, at, DrawProb(f, i, n, fmap, at), k)
  {
    ProbDrawn(f, i, n, fmap, at, a);
    RunsCons(GenProb(i, n, fmap, k), GenProb(i + 1, n, fmap + Repeat(i, a.value), k), f, run, at, d, k, a);
  }

  lemma {:induction false} ProbRuns(f: Server, run: Runner, i: nat, n: nat, fmap: seq<nat>, at: nat, k: Rest)
    requires 0 < n <= 0x1_0000_0000 && Honest(f) && Steps(run, f)
    ensures Runs(GenProb(i, n, fmap, k), run, at, DrawProb(f, i, n, fmap, at), k)
    decreases n - i
  {
    var a := f(Weight(), at);
    if i >= n {
      FinishRuns(f, run, n, fmap, at, k);
    } else if a.InputExceeded? {
      RunsOut(GenProb(i, n, fmap, k), f, run, at, k);
    } else {
      WeightIsWithin(f, at);
      var more := fmap + Repeat(i, a.value);
      ProbRuns(f, run, i + 1, n, more, at + a.used, k);
      ProbBranch(f, run, i, n, fmap, at, k, a, DrawProb(f, i + 1, n, more, at + a.used));
    }
  }

  lemma WeightIsWithin(f: Server, at: nat)
    requires Honest(f)
    ensures f(Weight(), at).Reply? ==> Within(f(Weight(), at).value, MAX_PROB_RATIO + 1)
  {
  }

  lemma GenRuns(f: Server, run: Runner, kind: Kind, n: nat, at: nat, k: Rest)
    requires 0 < n <= 0x1_0000_0000 && Honest(f) && Steps(run, f)
    ensures Runs(Gen(kind, n, k), run, at, Draw(f, kind, n, at), k)
  {
    var p, a := Gen(kind, n, k), f(Bool, at);
    match kind
    case Prob => ProbRuns(f, run, 0, n, [], at, k);
    case Pure => PureRuns(f, run, 0, n, false, [], at, k);
    case Mixed =>
      if a.InputExceeded? {
        RunsOut(p, f, run, at, k);
      } else {
        PureRuns(f, run, 0, n, a.value == 1, [], at + a.used, k);
        RunsCons(p, GenPure(0, n, a.value == 1, [], k), f, run, at,
                 DrawPure(f, 0, n, a.value == 1, [], at + a.used), k, a);
      }
  }

  // ----- the values determine the map

  ghost predicate Parses(p: Parsed, d: Drawn, rest: seq<int>) {
    if d.fmap.Some? then p == Parsed(d.fmap.value, rest) else p.Incomplete?
  }

  function Tail(d: Drawn, rest: seq<int>): seq<int> {
    if d.fmap.Some? then rest else []
  }

  lemma {:induction false} PureParses(f: Server, i: nat, n: nat, full: bool, fmap: seq<nat>, at: nat, rest: seq<int>)
    requires 0 < n <= 0x1_0000_0000 && Honest(f)
    ensures var d := DrawPure(f, i, n, full, fmap, at);
      Parses(ParsePure(i, n, full, fmap, d.values + Tail(d, rest)), d, rest)
    decreases n - i
  {
    var d := DrawPure(f, i, n, full, fmap, at);
    if i >= n {
      FinishParses(f, n, fmap, at, rest);
    } else if full {
      PureParses(f, i + 1, n, full, fmap + [i], at, rest);
    } else if f(Bool, at).Reply? {
      var a := f(Bool, at);
      PureParses(f, i + 1, n, full, if a.value == 1 then fmap + [i] else fmap, at + a.used, rest);
      assert (d.values + Tail(d, rest))[1..] == d.values[1..] + Tail(d, rest);
    }
  }

  lemma FinishParses(f: Server, n: nat, fmap: seq<nat>, at: nat, rest: seq<int>)
    requires 0 < n <= 0x1_0000_0000 && Honest(f)
    ensures var d := DrawFinish(f, n, fmap, at);
      Parses(ParseFinish(n, fmap, d.values + Tail(d, rest)), d, rest)
  {
    var d := DrawFinish(f, n, fmap, at);
    assert [] + rest == rest;
    if fmap == [] && f(InRange(Choice(n)), at).Reply? {
      assert (d.values + Tail(d, rest))[1..] == rest;
    }
  }

  lemma {:induction false} ProbParses(f: Server, i: nat, n: nat, fmap: seq<nat>, at: nat, rest: seq<int>)
    requires 0 < n <= 0x1_0000_0000 && Honest(f)
    ensures var d := DrawProb(f, i, n, fmap, at);
      Parses(ParseProb(i, n, fmap, d.values + Tail(d, rest)), d, rest)
    decreases n - i
  {
    var d := DrawProb(f, i, n, fmap, at);
    if i >= n {
      FinishParses(f, n, fmap, at, rest);
    } else if f(Weight(), at).Reply? {
      var a := f(Weight(), at);
      assert Within(a.value, MAX_PROB_RATIO + 1);
      ProbDrawn(f, i, n, fmap, at, a);
      ProbParses(f, i + 1, n, fmap + Repeat(i, a.value), at + a.used, rest);
      assert (d.values + Tail(d, rest))[1..] == d.values[1..] + Tail(d, rest);
    }
  }

  /** Reading the drawn values back gives the drawn map, and leaves what follows. */
  lemma DrawParses(f: Server, kind: Kind, n: nat, at: nat, rest: seq<int>)
    requires 0 < n <= 0x1_0000_0000 && Honest(f)
    ensures var d := Draw(f, kind, n, at);
      Parses(ParseGen(kind, n, d.values + Tail(d, rest)), d, rest)
  {
    var d := Draw(f, kind, n, at);
    match kind
    case Prob => ProbParses(f, 0, n, [], at, rest);
    case Pure => PureParses(f, 0, n, false, [], at, rest);
    case Mixed =>
      if f(Bool, at).Reply? {
        var a := f(Bool, at);
        PureParses(f, 0, n, a.value == 1, [], at + a.used, rest);
        MixedParses(n, a, DrawPure(f, 0, n, a.value == 1, [], at + a.used), d, rest);
      }
  }

  /** The toss that comes before, read back too. */
  lemma MixedParses(n: nat, a: Reply, later: Drawn, d: Drawn, rest: seq<int>)
    requires 0 < n <= 0x1_0000_0000 && a.Reply? && Bit(a.value) && d == Cons(a.value, a.log, later)
    requires Parses(ParsePure(0, n, a.value == 1, [], later.values + Tail(later, rest)), later, rest)
    ensures Parses(ParseGen(Mixed, n, d.values + Tail(d, rest)), d, rest)
  {
    assert (d.values + Tail(d, rest))[1..] == later.values + Tail(later, rest);
  }
}
