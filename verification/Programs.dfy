/** A test harness as a deterministic program over the input tape, and what one
    run of it does: the values the API returns, the lines `--verbose_reads`
    prints, the harness's own output, the bytes consumed and how it ends. */
module Programs {
  import opened Words

  /** DEEPFUZZY_SIZE. */
  const INPUT_SIZE: nat := 32768

  /** The lines of a verbose run that the reducer looks for. */
  datatype Event =
    | ReadByte(pos: nat)        // Reading byte at
    | ReadBool(pos: nat)        // Reading byte as boolean at
    | StartMulti                // STARTING MULTI-BYTE READ
    | FinishMulti               // FINISHED MULTI-BYTE READ
    | Converting(value: int)    // Converting out-of-range value to
    | StartOneOf                // STARTING OneOf CALL
    | FinishOneOf               // FINISHED OneOf CALL

  /** One call a harness makes. */
  datatype Request =
    | Bool
    | Byte(noNull: bool)                          // one step of SymbolizeData
    | Word(ty: IntType)
    | InRange(range: Range)
    | EnterOneOf
    | LeaveOneOf
    | Say(line: string)

  datatype Exit = Exited(code: int) | Crashed | Abandoned

  /** A harness is a tree: it stops, or calls and goes on with the answer.  An
      answer it has no branch for makes it crash. */
  datatype Program = Halt(exit: Exit) | Call(req: Request, next: imap<int, Program>)

  datatype Run = Run(values: seq<int>, log: seq<Event>, output: seq<string>, index: nat, exit: Exit)

  /** What a byte of the tape reads as: bytes past the end of the file are zero. */
  function At(tape: seq<byte>, i: nat): byte {
    if i < |tape| then tape[i] else 0
  }

  function Window(tape: seq<byte>, i: nat, n: nat): (w: seq<byte>)
    ensures |w| == n && forall k :: 0 <= k < n ==> w[k] == At(tape, i + k)
  {
    seq<byte>(n, k requires 0 <= k < n => At(tape, i + k))
  }

  function ReadLog(i: nat, n: nat): (log: seq<Event>)
    ensures |log| == n && forall k :: 0 <= k < n ==> log[k] == ReadByte(i + k)
  {
    seq(n, k requires 0 <= k < n => ReadByte(i + k))
  }

  function MultiLog(i: nat, n: nat): seq<Event> {
    [StartMulti] + ReadLog(i, n) + [FinishMulti]
  }

  datatype Reply = Reply(value: int, log: seq<Event>, used: nat) | InputExceeded

  function Decode(ty: IntType, tape: seq<byte>, i: nat): (v: int)
    ensures ty.Holds(v)
  {
    var bytes := Window(tape, i, ty.Bytes());
    BigEndianFits(ty, bytes);
    ty.FromUnsigned(BigEndian(bytes))
  }

  function Answer(req: Request, tape: seq<byte>, i: nat): Reply {
    match req
    case Bool =>
      if i >= INPUT_SIZE then InputExceeded else Reply(At(tape, i) % 2, [ReadBool(i)], 1)
    case Byte(noNull) =>
      if i >= INPUT_SIZE then InputExceeded
      else Reply(if noNull && At(tape, i) == 0 then 1 else At(tape, i), [ReadByte(i)], 1)
    case Word(ty) =>
      if i + ty.Bytes() > INPUT_SIZE then InputExceeded
      else Reply(Decode(ty, tape, i), MultiLog(i, ty.Bytes()), ty.Bytes())
    case InRange(r) =>
      var n := r.ty.Bytes();
      if r.a == r.b then Reply(r.a, [], 0)
      else if i + n > INPUT_SIZE then InputExceeded
      else
        var c := Clamp(r, Decode(r.ty, tape, i));
        Reply(c.value, MultiLog(i, n) + (if c.converted then [Converting(c.value)] else []), n)
    case EnterOneOf => Reply(0, [StartOneOf], 0)
    case LeaveOneOf => Reply(0, [FinishOneOf], 0)
    case Say(_) => Reply(0, [], 0)
  }

  function Printed(req: Request): seq<string> {
    if req.Say? then [req.line] else []
  }

  /** OneOf calls nest by scoping, so a run never leaves a call it did not enter. */
  function Depth(req: Request, depth: nat): nat {
    if req.EnterOneOf? then depth + 1
    else if req.LeaveOneOf? && depth > 0 then depth - 1
    else depth
  }

  /** A run whose first call returned `v`, printed `lines` and logged `log`. */
  function Prepend(v: int, log: seq<Event>, lines: seq<string>, rest: Run): Run {
    Run([v] + rest.values, log + rest.log, lines + rest.output, rest.index, rest.exit)
  }

  /** What answers the calls: the reply to a request made at a tape position. */
  type Server = (Request, nat) -> Reply

  function Serve(tape: seq<byte>): Server {
    (req, i: nat) => Answer(req, tape, i)
  }

  ghost function RunFrom(p: Program, f: Server, i: nat, depth: nat): Run
    decreases p, 1
  {
    match p
    case Halt(exit) => Run([], [], [], i, exit)
    case Call(req, next) =>
      if req.LeaveOneOf? && depth == 0 then Run([], [], [], i, Crashed)
      else match f(req, i)
        case InputExceeded => Run([], [], [], i, Abandoned)
        case Reply(v, log, used) =>
          Prepend(v, log, Printed(req), Resume(p, v, f, i + used, Depth(req, depth)))
  }

  /** The run of a harness that has just been answered `v`. */
  ghost function Resume(p: Program, v: int, f: Server, i: nat, depth: nat): Run
    requires p.Call?
    decreases p, 0
  {
    if v in p.next then RunFrom(p.next[v], f, i, depth) else Run([], [], [], i, Crashed)
  }

  /** A call that is answered and the run after it. */
  ghost predicate Answered(p: Program, f: Server, i: nat, depth: nat) {
    p.Call? && !(p.req.LeaveOneOf? && depth == 0) && f(p.req, i).Reply?
  }

  ghost function After(p: Program, f: Server, i: nat, depth: nat): Run
    requires Answered(p, f, i, depth)
  {
    Resume(p, f(p.req, i).value, f, i + f(p.req, i).used, Depth(p.req, depth))
  }

  lemma UnrollRun(p: Program, f: Server, i: nat, depth: nat)
    requires Answered(p, f, i, depth)
    ensures var a := f(p.req, i);
      RunFrom(p, f, i, depth) == Prepend(a.value, a.log, Printed(p.req), After(p, f, i, depth))
  {
  }

  /** One replay of a harness on a saved test. */
  ghost function Execute(p: Program, tape: seq<byte>): Run {
    RunFrom(p, Serve(tape), 0, 0)
  }

  // ----- a run depends only on the bytes it consumes

  ghost predicate AgreeOn(a: seq<byte>, b: seq<byte>, lo: nat, hi: nat) {
    forall j: nat :: lo <= j < hi ==> At(a, j) == At(b, j)
  }

  lemma AnswerLocal(req: Request, a: seq<byte>, b: seq<byte>, i: nat)
    requires Answer(req, a, i).Reply? ==> AgreeOn(a, b, i, i + Answer(req, a, i).used)
    ensures Answer(req, a, i) == Answer(req, b, i)
  {
    if (req.Word? || req.InRange?) && Answer(req, a, i).Reply? {
      var n := Answer(req, a, i).used;
      assert Window(a, i, n) == Window(b, i, n);
    }
  }

  /** The two servers give the same reply to every call that stays before `hi`. */
  ghost predicate SameBefore(f: Server, g: Server, hi: nat) {
    forall req, i: nat :: (f(req, i).Reply? ==> i + f(req, i).used <= hi) ==> g(req, i) == f(req, i)
  }

  lemma {:induction false} IndexGrows(p: Program, f: Server, i: nat, depth: nat)
    ensures RunFrom(p, f, i, depth).index >= i
    decreases p
  {
    if p.Call? && f(p.req, i).Reply? {
      var a := f(p.req, i);
      ResumeGrows(p, a.value, f, i + a.used, Depth(p.req, depth));
    }
  }

  lemma ResumeGrows(p: Program, v: int, f: Server, i: nat, depth: nat)
    requires p.Call?
    ensures Resume(p, v, f, i, depth).index >= i
    decreases p, 0
  {
    if v in p.next {
      IndexGrows(p.next[v], f, i, depth);
    }
  }

  lemma {:induction false} RunLocal(p: Program, f: Server, g: Server, i: nat, depth: nat, hi: nat)
    requires SameBefore(f, g, hi) && RunFrom(p, f, i, depth).index <= hi
    ensures RunFrom(p, f, i, depth) == RunFrom(p, g, i, depth)
    decreases p
  {
    if p.Call? && f(p.req, i).Reply? && !(p.req.LeaveOneOf? && depth == 0) {
      var a, d := f(p.req, i), Depth(p.req, depth);
      ResumeGrows(p, a.value, f, i + a.used, d);
      assert g(p.req, i) == a;
      if a.value in p.next {
        RunLocal(p.next[a.value], f, g, i + a.used, d, hi);
      }
    }
  }

  /** Two tapes that agree on the bytes consumed from one of them run alike. */
  lemma SameBytesSameRun(p: Program, a: seq<byte>, b: seq<byte>)
    requires AgreeOn(a, b, 0, Execute(p, a).index)
    ensures Execute(p, a) == Execute(p, b)
  {
    var hi := Execute(p, a).index;
    forall req, i: nat | Answer(req, a, i).Reply? ==> i + Answer(req, a, i).used <= hi
      ensures Answer(req, a, i) == Answer(req, b, i)
    {
      AnswerLocal(req, a, b, i);
    }
    RunLocal(p, Serve(a), Serve(b), 0, 0, hi);
  }

  /** Saving the consumed prefix of a tape and replaying it repeats the run: same
      values, same log, same output, same index, same exit. */
  lemma ReplayRepeats(p: Program, tape: seq<byte>)
    requires |tape| >= Execute(p, tape).index
    ensures Execute(p, tape[..Execute(p, tape).index]) == Execute(p, tape)
  {
    SameBytesSameRun(p, tape, tape[..Execute(p, tape).index]);
  }

  /** Zeros after the end of a test do not change its run. */
  lemma PaddingRepeats(p: Program, tape: seq<byte>, zeros: seq<byte>)
    requires forall k :: 0 <= k < |zeros| ==> zeros[k] == 0
    ensures Execute(p, tape + zeros) == Execute(p, tape)
  {
    SameBytesSameRun(p, tape, tape + zeros);
  }

  // ----- dropping the bytes after the last read

  /** The position of the last ordinary read in a log, or `otherwise`. */
  function LastRead(log: seq<Event>, otherwise: int): int {
    if log == [] then otherwise
    else if log[|log| - 1].ReadByte? then log[|log| - 1].pos
    else LastRead(log[..|log| - 1], otherwise)
  }

  /** Every ordinary read of the log is before position `n`. */
  ghost predicate ReadsBelow(log: seq<Event>, n: nat) {
    forall k :: 0 <= k < |log| && log[k].ReadByte? ==> log[k].pos < n
  }

  /** Every byte of the tape that is read as a boolean at or after `n` is even. */
  ghost predicate LateBoolsEven(log: seq<Event>, tape: seq<byte>, n: nat) {
    forall k :: 0 <= k < |log| && log[k].ReadBool? && log[k].pos >= n ==> At(tape, log[k].pos) % 2 == 0
  }

  lemma ReadsBelowConcat(a: seq<Event>, b: seq<Event>, n: nat)
    ensures ReadsBelow(a + b, n) <==> ReadsBelow(a, n) && ReadsBelow(b, n)
  {
    assert forall k :: 0 <= k < |a| ==> a[k] == (a + b)[k];
    assert forall k :: 0 <= k < |b| ==> b[k] == (a + b)[|a| + k];
  }

  lemma LateBoolsEvenConcat(a: seq<Event>, b: seq<Event>, tape: seq<byte>, n: nat)
    ensures LateBoolsEven(a + b, tape, n) <==> LateBoolsEven(a, tape, n) && LateBoolsEven(b, tape, n)
  {
    assert forall k :: 0 <= k < |a| ==> a[k] == (a + b)[k];
    assert forall k :: 0 <= k < |b| ==> b[k] == (a + b)[|a| + k];
  }

  /** A reply `a` from the whole tape and `c` from its first `n` bytes: they agree
      exactly when no odd byte beyond `n` was read as a boolean. */
  ghost predicate CutReply(a: Reply, c: Reply, tape: seq<byte>, n: nat) {
    if a.InputExceeded? then c == a
    else ReadsBelow(a.log, n) ==>
      c.Reply? && c.log == a.log && c.used == a.used && (c.value == a.value <==> LateBoolsEven(a.log, tape, n))
  }

  lemma AnswerCut(req: Request, tape: seq<byte>, n: nat, i: nat)
    requires n <= |tape|
    ensures CutReply(Answer(req, tape, i), Answer(req, tape[..n], i), tape, n)
  {
    var a := Answer(req, tape, i);
    if a.Reply? && ReadsBelow(a.log, n) {
      if req.Bool? {
        assert a.log[0] == ReadBool(i);
      } else {
        if (req.Word? || req.InRange?) && a.used > 0 {
          assert a.log[a.used] == MultiLog(i, a.used)[a.used] == ReadByte(i + a.used - 1);
        } else if req.Byte? {
          assert a.log[0] == ReadByte(i);
        }
        AnswerLocal(req, tape, tape[..n], i);
        assert forall k :: 0 <= k < |a.log| ==> !a.log[k].ReadBool?;
      }
    }
  }

  /** The same for whole runs. */
  ghost predicate CutRun(whole: Run, cut: Run, tape: seq<byte>, n: nat) {
    && (LateBoolsEven(whole.log, tape, n) ==> cut == whole)
    && (cut.values == whole.values ==> LateBoolsEven(whole.log, tape, n))
  }

  lemma PrependCut(v: int, w: int, log: seq<Event>, lines: seq<string>, rest: Run, cutRest: Run,
                   tape: seq<byte>, n: nat)
    requires w == v <==> LateBoolsEven(log, tape, n)
    requires w == v ==> CutRun(rest, cutRest, tape, n)
    ensures CutRun(Prepend(v, log, lines, rest), Prepend(w, log, lines, cutRest), tape, n)
  {
    LateBoolsEvenConcat(log, rest.log, tape, n);
    var whole, cut := Prepend(v, log, lines, rest), Prepend(w, log, lines, cutRest);
    assert whole.values[0] == v && cut.values[0] == w;
    assert whole.values[1..] == rest.values && cut.values[1..] == cutRest.values;
  }

  lemma {:induction false} CutFrom(p: Program, f: Server, g: Server, tape: seq<byte>, n: nat, i: nat, depth: nat)
    requires forall req, j: nat :: CutReply(f(req, j), g(req, j), tape, n)
    requires ReadsBelow(RunFrom(p, f, i, depth).log, n)
    ensures CutRun(RunFrom(p, f, i, depth), RunFrom(p, g, i, depth), tape, n)
    decreases p
  {
    if p.Call? {
      var a, c, d := f(p.req, i), g(p.req, i), Depth(p.req, depth);
      assert CutReply(a, c, tape, n);
      if a.Reply? && !(p.req.LeaveOneOf? && depth == 0) {
        var rest := Resume(p, a.value, f, i + a.used, d);
        ReadsBelowConcat(a.log, rest.log, n);
        if a.value in p.next {
          CutFrom(p.next[a.value], f, g, tape, n, i + a.used, d);
        }
        PrependCut(a.value, c.value, a.log, Printed(p.req), rest, Resume(p, c.value, g, i + a.used, d), tape, n);
      }
    }
  }

  lemma {:induction false} LastReadBound(log: seq<Event>, otherwise: int, n: nat)
    requires forall j, k :: 0 <= j < k < |log| && log[j].ReadByte? && log[k].ReadByte? ==> log[j].pos < log[k].pos
    requires LastRead(log, otherwise) < n
    ensures ReadsBelow(log, n)
  {
    if log != [] && !log[|log| - 1].ReadByte? {
      LastReadBound(log[..|log| - 1], otherwise, n);
      assert forall k :: 0 <= k < |log| - 1 ==> log[k] == log[..|log| - 1][k];
    }
  }

  // ----- where a run reads

  function Position(e: Event): Option<nat> {
    if e.ReadByte? || e.ReadBool? then Some(e.pos) else None
  }

  datatype Option<T> = None | Some(value: T)

  /** Positions are read in increasing order, between `lo` and `hi`. */
  ghost predicate Increasing(log: seq<Event>, lo: nat, hi: nat) {
    && (forall k :: 0 <= k < |log| && Position(log[k]).Some? ==> lo <= log[k].pos < hi)
    && (forall j, k :: 0 <= j < k < |log| && Position(log[j]).Some? && Position(log[k]).Some?
          ==> log[j].pos < log[k].pos)
  }

  lemma AnswerIncreasing(req: Request, tape: seq<byte>, i: nat)
    ensures Answer(req, tape, i).Reply? ==> Increasing(Answer(req, tape, i).log, i, i + Answer(req, tape, i).used)
  {
    var a := Answer(req, tape, i);
    if (req.Word? || req.InRange?) && a.Reply? && a.used > 0 {
      forall k | 0 <= k < |a.log| && Position(a.log[k]).Some?
        ensures 1 <= k <= a.used && a.log[k] == ReadByte(i + k - 1)
      {
      }
    }
  }

  lemma IncreasingConcat(a: seq<Event>, b: seq<Event>, lo: nat, mid: nat, hi: nat)
    requires Increasing(a, lo, mid) && Increasing(b, mid, hi) && lo <= mid <= hi
    ensures Increasing(a + b, lo, hi)
  {
    var c := a + b;
    assert forall k :: 0 <= k < |c| ==> c[k] == if k < |a| then a[k] else b[k - |a|];
  }

  lemma {:induction false} RunIncreasing(p: Program, f: Server, i: nat, depth: nat)
    requires forall req, j: nat :: f(req, j).Reply? ==> Increasing(f(req, j).log, j, j + f(req, j).used)
    ensures Increasing(RunFrom(p, f, i, depth).log, i, RunFrom(p, f, i, depth).index)
    decreases p
  {
    if p.Call? && f(p.req, i).Reply? && !(p.req.LeaveOneOf? && depth == 0) {
      var a, d := f(p.req, i), Depth(p.req, depth);
      if a.value in p.next {
        RunIncreasing(p.next[a.value], f, i + a.used, d);
      }
      ResumeGrows(p, a.value, f, i + a.used, d);
      var rest := Resume(p, a.value, f, i + a.used, d);
      IncreasingConcat(a.log, rest.log, i, i + a.used, rest.index);
    }
  }

  lemma ExecuteIncreasing(p: Program, tape: seq<byte>)
    ensures Increasing(Execute(p, tape).log, 0, Execute(p, tape).index)
  {
    forall req, j: nat
      ensures Answer(req, tape, j).Reply? ==> Increasing(Answer(req, tape, j).log, j, j + Answer(req, tape, j).used)
    {
      AnswerIncreasing(req, tape, j);
    }
    RunIncreasing(p, Serve(tape), 0, 0);
  }

  /** Dropping the bytes after the last ordinary read leaves every returned value
      as it was exactly when no later byte read as a boolean is odd; then the
      whole run is the same. */
  lemma TruncationExact(p: Program, tape: seq<byte>, n: nat)
    requires n <= |tape| && LastRead(Execute(p, tape).log, |tape| - 1) + 1 == n
    ensures Execute(p, tape[..n]).values == Execute(p, tape).values
            <==> LateBoolsEven(Execute(p, tape).log, tape, n)
    ensures LateBoolsEven(Execute(p, tape).log, tape, n) ==> Execute(p, tape[..n]) == Execute(p, tape)
  {
    ExecuteIncreasing(p, tape);
    LastReadBound(Execute(p, tape).log, |tape| - 1, n);
    forall req, j: nat
      ensures CutReply(Answer(req, tape, j), Answer(req, tape[..n], j), tape, n)
    {
      AnswerCut(req, tape, n, j);
    }
    CutFrom(p, Serve(tape), Serve(tape[..n]), tape, n, 0, 0);
  }

  predicate InByte(v: int) {
    0 <= v < 256
  }

  /** A harness that reads a byte and then a boolean: its failing test [7, 1] is
      shortened to [7], which no longer fails. */
  ghost function ByteThenBool(): Program {
    Call(Byte(false), imap v: int | InByte(v) :: Call(Bool, imap b: int | InByte(b) :: Halt(Exited(b))))
  }

  lemma TruncationCanBreak()
    ensures LastRead(Execute(ByteThenBool(), [7, 1]).log, 1) == 0
    ensures Execute(ByteThenBool(), [7, 1]).exit == Exited(1)
    ensures Execute(ByteThenBool(), [7, 1][..1]).exit == Exited(0)
  {
    var p := ByteThenBool();
    var q := p.next[7];
    assert [7, 1][..1] == [7];
    assert q.req == Bool && At([7, 1], 1) == 1 && At([7], 1) == 0;
    assert Answer(Bool, [7, 1], 1) == Reply(1, [ReadBool(1)], 1);
    assert Answer(Bool, [7], 1) == Reply(0, [ReadBool(1)], 1);
    assert InByte(0) && InByte(1);
    assert Resume(q, 1, Serve([7, 1]), 2, 0) == Run([], [], [], 2, Exited(1));
    assert Resume(q, 0, Serve([7]), 2, 0) == Run([], [], [], 2, Exited(0));
    assert RunFrom(q, Serve([7, 1]), 1, 0) == Run([1], [ReadBool(1)], [], 2, Exited(1));
    assert RunFrom(q, Serve([7]), 1, 0) == Run([0], [ReadBool(1)], [], 2, Exited(0));
    assert Execute(p, [7, 1]).log == [ReadByte(0), ReadBool(1)];
    assert LastRead([ReadByte(0)], 1) == 0;
    assert [ReadByte(0), ReadBool(1)][..1] == [ReadByte(0)];
    assert [7, 1][..1] == [7];
  }
}
