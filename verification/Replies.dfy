/** What one call does, told by the bytes of the tape: what it reads, what it costs,
    what it returns, and when the input is used up. */
module Replies {
  import opened Words
  import opened Programs

  /** A call that needs `n` bytes abandons the test exactly when they go beyond the
      32768 bytes of the input; otherwise it reads those and no others, in order. */
  ghost predicate Reads(a: Reply, i: nat, n: nat) {
    if n > 0 && i + n > 32768 then a.InputExceeded?
    else
      && a.Reply? && a.used == n
      && (forall j: nat :: i <= j < i + n <==> IsRead(a.log, j))
      && (forall j, k :: 0 <= j < k < |a.log| && Position(a.log[j]).Some? && Position(a.log[k]).Some?
            ==> a.log[j].pos < a.log[k].pos)
  }

  predicate LogsRead(log: seq<Event>, k: int, j: nat) {
    0 <= k < |log| && Position(log[k]) == Some(j)
  }

  ghost predicate IsRead(log: seq<Event>, j: nat) {
    exists k :: LogsRead(log, k, j)
  }

  /** The number that `n` bytes from position `i` on denote, the first the highest. */
  function NumberAt(tape: seq<byte>, i: nat, n: nat): nat {
    if n == 0 then 0 else NumberAt(tape, i, n - 1) * 256 + At(tape, i + n - 1)
  }

  lemma {:induction false} WindowIsNumber(tape: seq<byte>, i: nat, n: nat)
    ensures BigEndian(Window(tape, i, n)) == NumberAt(tape, i, n)
  {
    if n > 0 {
      assert Window(tape, i, n)[..n - 1] == Window(tape, i, n - 1);
      WindowIsNumber(tape, i, n - 1);
    }
  }

  /** The value of the type with the same bits. */
  ghost predicate SameBits(ty: IntType, x: int, u: nat) {
    ty.Holds(x) && x % ty.Modulus() == u % ty.Modulus()
  }

  lemma BoolReply(tape: seq<byte>, i: nat)
    ensures var a := Answer(Bool, tape, i);
      Reads(a, i, 1) && (a.Reply? ==> a.log == [ReadBool(i)] && a.value == At(tape, i) % 2)
  {
    var a := Answer(Bool, tape, i);
    if a.Reply? {
      assert LogsRead(a.log, 0, i);
    }
  }

  /** A character that must not be NUL reads a zero byte as 1. */
  lemma ByteReply(noNull: bool, tape: seq<byte>, i: nat)
    ensures var a := Answer(Byte(noNull), tape, i);
      Reads(a, i, 1) &&
      (a.Reply? ==> a.log == [ReadByte(i)] && a.value == if noNull && At(tape, i) == 0 then 1 else At(tape, i))
  {
    var a := Answer(Byte(noNull), tape, i);
    if a.Reply? {
      assert LogsRead(a.log, 0, i);
    }
  }

  lemma MultiReads(i: nat, n: nat, more: seq<Event>, log: seq<Event>)
    requires log == MultiLog(i, n) + more && forall k :: 0 <= k < |more| ==> Position(more[k]).None?
    ensures forall j: nat :: i <= j < i + n <==> IsRead(log, j)
    ensures forall j, k :: 0 <= j < k < |log| && Position(log[j]).Some? && Position(log[k]).Some?
              ==> log[j].pos < log[k].pos
  {
    assert forall k :: 0 <= k < |log| ==>
      log[k] == if k == 0 then StartMulti else if k <= n then ReadByte(i + k - 1)
                else if k == n + 1 then FinishMulti else more[k - n - 2];
    forall j: nat
      ensures i <= j < i + n <==> IsRead(log, j)
    {
      if i <= j < i + n {
        assert LogsRead(log, j - i + 1, j);
      }
    }
  }

  /** An integer has the bits of its bytes. */
  lemma WordReply(ty: IntType, tape: seq<byte>, i: nat)
    ensures var a := Answer(Word(ty), tape, i);
      && Reads(a, i, ty.Bytes())
      && (a.Reply? ==> SameBits(ty, a.value, NumberAt(tape, i, ty.Bytes())) && a.log[0] == StartMulti
                       && a.log[|a.log| - 1] == FinishMulti && |a.log| == ty.Bytes() + 2)
  {
    DecodeBits(ty, tape, i);
    if Answer(Word(ty), tape, i).Reply? {
      MultiReads(i, ty.Bytes(), [], Answer(Word(ty), tape, i).log);
    }
  }

  lemma DecodeBits(ty: IntType, tape: seq<byte>, i: nat)
    ensures SameBits(ty, Decode(ty, tape, i), NumberAt(tape, i, ty.Bytes()))
  {
    var bytes := Window(tape, i, ty.Bytes());
    BigEndianFits(ty, bytes);
    WindowIsNumber(tape, i, ty.Bytes());
    UnsignedKeepsBits(ty, BigEndian(bytes));
  }

  /** With `x` drawn: a value in the range is returned, any other is brought into it
      by its remainder, and then printed unless that sum overflows. */
  ghost predicate Ranged(r: Range, x: int, a: Reply)
    requires r.ty.Holds(x)
  {
    var (low, high) := (if r.a <= r.b then r.a else r.b, if r.a <= r.b then r.b else r.a);
    var rest := (if x < 0 then x + r.ty.Modulus() else x) % (high - low + 1);
    a.Reply? && |a.log| >= 1 &&
    if low <= x <= high then a.value == x && a.log[|a.log| - 1] == FinishMulti
    else if rest > r.ty.Max() then a.value == high && a.log[|a.log| - 1] == FinishMulti
    else a.value == low + rest && a.log[|a.log| - 1] == Converting(a.value)
  }

  lemma ClampedReply(r: Range, x: int, i: nat, n: nat, a: Reply)
    requires r.ty.Holds(x) && var c := Clamp(r, x);
      a == Reply(c.value, MultiLog(i, n) + (if c.converted then [Converting(c.value)] else []), n)
    ensures Ranged(r, x, a)
  {
    InRangeInBounds(r, x);
    assert MultiLog(i, n)[n + 1] == FinishMulti;
  }

  /** Equal bounds read nothing. */
  lemma RangeReply(r: Range, tape: seq<byte>, i: nat)
    ensures var a := Answer(InRange(r), tape, i);
      && Reads(a, i, if r.a == r.b then 0 else r.ty.Bytes())
      && (r.a == r.b ==> a == Reply(r.a, [], 0))
      && (r.a != r.b && a.Reply? ==> exists x :: SameBits(r.ty, x, NumberAt(tape, i, r.ty.Bytes())) && Ranged(r, x, a))
  {
    var a := Answer(InRange(r), tape, i);
    if r.a != r.b && a.Reply? {
      var x, n := Decode(r.ty, tape, i), r.ty.Bytes();
      var c := Clamp(r, x);
      DecodeBits(r.ty, tape, i);
      MultiReads(i, n, if c.converted then [Converting(c.value)] else [], a.log);
      ClampedReply(r, x, i, n, a);
    }
  }

  /** The other calls read nothing. */
  lemma PlainReply(req: Request, tape: seq<byte>, i: nat)
    requires req.EnterOneOf? || req.LeaveOneOf? || req.Say?
    ensures var a := Answer(req, tape, i);
      Reads(a, i, 0) && a.log == if req.EnterOneOf? then [StartOneOf] else if req.LeaveOneOf? then [FinishOneOf] else []
  {
  }

  // ----- a run, call by call

  /** Before its next call a run has returned `values`, logged `log` and put out
      `output`; it stands at `index`, inside `depth` OneOf calls. */
  datatype State = State(program: Program, values: seq<int>, log: seq<Event>, output: seq<string>, index: nat,
                         depth: nat)

  datatype Turn = Goes(state: State) | Ends(run: Run)

  /** One call.  An answer without a branch is a crash, as is leaving a OneOf call that
      was not entered; both are seen before anything else is read. */
  ghost function Turned(s: State, f: Server): Turn {
    match s.program
    case Halt(exit) => Ends(Run(s.values, s.log, s.output, s.index, exit))
    case Call(req, next) =>
      if req.LeaveOneOf? && s.depth == 0 then Ends(Run(s.values, s.log, s.output, s.index, Crashed))
      else
        var a := f(req, s.index);
        if a.InputExceeded? then Ends(Run(s.values, s.log, s.output, s.index, Abandoned))
        else
          var values := s.values + [a.value];
          var log := s.log + a.log;
          var output := if req.Say? then s.output + [req.line] else s.output;
          var depth := if req.EnterOneOf? then s.depth + 1 else if req.LeaveOneOf? then s.depth - 1 else s.depth;
          if a.value in next then Goes(State(next[a.value], values, log, output, s.index + a.used, depth))
          else Ends(Run(values, log, output, s.index + a.used, Crashed))
  }

  /** The turns from a state end in the run `r`. */
  least predicate Leads(s: State, f: Server, r: Run) {
    match Turned(s, f)
    case Ends(run) => run == r
    case Goes(next) => Leads(next, f, r)
  }

  /** What has happened so far, and then the rest. */
  function Behind(s: State, rest: Run): Run {
    Run(s.values + rest.values, s.log + rest.log, s.output + rest.output, rest.index, rest.exit)
  }

  lemma {:induction false} TurnsMakeRun(s: State, f: Server)
    ensures Leads(s, f, Behind(s, RunFrom(s.program, f, s.index, s.depth)))
    decreases s.program
  {
    var rest := RunFrom(s.program, f, s.index, s.depth);
    if Answered(s.program, f, s.index, s.depth) {
      var a := f(s.program.req, s.index);
      TurnMakes(s, f, a, After(s.program, f, s.index, s.depth));
      if a.value in s.program.next {
        TurnsMakeRun(Turned(s, f).state, f);
      }
    }
  }

  lemma TurnMakes(s: State, f: Server, a: Reply, later: Run)
    requires Answered(s.program, f, s.index, s.depth) && a == f(s.program.req, s.index)
    requires later == After(s.program, f, s.index, s.depth)
    ensures var t := Turned(s, f); var whole := Behind(s, RunFrom(s.program, f, s.index, s.depth));
      if t.Ends? then t.run == whole else Behind(t.state, later) == whole
  {
    UnrollRun(s.program, f, s.index, s.depth);
  }

  /** A run is what its calls make, one after another, from nothing. */
  lemma ExecuteIsItsTurns(p: Program, tape: seq<byte>)
    ensures Leads(State(p, [], [], [], 0, 0), Serve(tape), Execute(p, tape))
  {
    var s := State(p, [], [], [], 0, 0);
    TurnsMakeRun(s, Serve(tape));
    assert Behind(s, Execute(p, tape)) == Execute(p, tape);
  }
}
