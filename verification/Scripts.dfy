/** Straight-line harnesses: they make a fixed row of calls, each byte in its place,
    and look at the bytes only at their end. */
module Scripts {
  import opened Words
  import opened Programs
  import opened Structure

  predicate Possible(req: Request, v: int) {
    match req
    case EnterOneOf | LeaveOneOf => v == 0
    case _ => 0 <= v < 256
  }

  /** Makes the calls in order, and exits with `code` of the bytes it was given. */
  ghost function Script(calls: seq<Request>, got: seq<int>, code: seq<int> -> int): Program
    decreases |calls|
  {
    if calls == [] then Halt(Exited(code(got)))
    else
      Call(calls[0], imap v: int | Possible(calls[0], v) ::
        Script(calls[1..], if calls[0].Byte? then got + [v] else got, code))
  }

  /** Bytes and properly nested OneOf calls only. */
  predicate Plain(calls: seq<Request>, depth: nat)
    decreases |calls|
  {
    calls == [] ||
    ((calls[0] == Byte(false) || calls[0].EnterOneOf? || (calls[0].LeaveOneOf? && depth > 0))
      && Plain(calls[1..], Depth(calls[0], depth)))
  }

  function Reads(calls: seq<Request>): nat
    decreases |calls|
  {
    if calls == [] then 0 else (if calls[0].Byte? then 1 else 0) + Reads(calls[1..])
  }

  function ScriptLog(calls: seq<Request>, i: nat): seq<Event>
    decreases |calls|
  {
    if calls == [] then []
    else if calls[0].Byte? then [ReadByte(i)] + ScriptLog(calls[1..], i + 1)
    else [if calls[0].EnterOneOf? then StartOneOf else FinishOneOf] + ScriptLog(calls[1..], i)
  }

  ghost predicate Does(p: Program, tape: seq<byte>, i: nat, depth: nat, log: seq<Event>, code: int) {
    var r := RunFrom(p, Serve(tape), i, depth);
    r.log == log && r.output == [] && r.exit == Exited(code)
  }

  lemma OneCall(p: Program, v: int, q: Program, tape: seq<byte>, i: nat, depth: nat, e: Event, used: nat,
                log: seq<Event>, code: int)
    requires p.Call? && Answer(p.req, tape, i) == Reply(v, [e], used) && v in p.next && p.next[v] == q
    requires !p.req.Say? && (p.req.LeaveOneOf? ==> depth > 0)
    requires Does(q, tape, i + used, Depth(p.req, depth), log, code)
    ensures Does(p, tape, i, depth, [e] + log, code)
  {
  }

  lemma ScriptStep(calls: seq<Request>, got: seq<int>, code: seq<int> -> int, v: int)
    requires calls != [] && Possible(calls[0], v)
    ensures var p := Script(calls, got, code);
      p.Call? && p.req == calls[0] && v in p.next
      && p.next[v] == Script(calls[1..], if calls[0].Byte? then got + [v] else got, code)
  {
  }

  lemma {:induction false} RunScript(p: Program, calls: seq<Request>, got: seq<int>, code: seq<int> -> int,
                                     tape: seq<byte>, i: nat, depth: nat)
    requires p == Script(calls, got, code) && Plain(calls, depth) && i + Reads(calls) <= INPUT_SIZE
    ensures Does(p, tape, i, depth, ScriptLog(calls, i), code(got + Window(tape, i, Reads(calls))))
    decreases |calls|
  {
    if calls == [] {
      assert got + Window(tape, i, 0) == got;
    } else if calls[0].Byte? {
      ScriptStep(calls, got, code, At(tape, i));
      ScriptByte(p, p.next[At(tape, i) as int], calls, got, code, tape, i, depth);
    } else {
      ScriptStep(calls, got, code, 0);
      ScriptMark(p, p.next[0], calls, got, code, tape, i, depth);
    }
  }

  lemma ScriptByte(p: Program, q: Program, calls: seq<Request>, got: seq<int>, code: seq<int> -> int,
                   tape: seq<byte>, i: nat, depth: nat)
    requires calls != [] && Plain(calls, depth) && i + Reads(calls) <= INPUT_SIZE && calls[0].Byte?
    requires p.Call? && p.req == calls[0] && At(tape, i) as int in p.next && p.next[At(tape, i) as int] == q
    requires q == Script(calls[1..], got + [At(tape, i) as int], code)
    ensures Does(p, tape, i, depth, ScriptLog(calls, i), code(got + Window(tape, i, Reads(calls))))
    decreases |calls|, 0
  {
    var v := At(tape, i);
    var rest := calls[1..];
    RunScript(q, rest, got + [v], code, tape, i + 1, depth);
    assert got + [v] + Window(tape, i + 1, Reads(rest)) == got + Window(tape, i, Reads(calls));
    OneCall(p, v, q, tape, i, depth, ReadByte(i), 1, ScriptLog(rest, i + 1), code(got + Window(tape, i, Reads(calls))));
  }

  lemma ScriptMark(p: Program, q: Program, calls: seq<Request>, got: seq<int>, code: seq<int> -> int,
                   tape: seq<byte>, i: nat, depth: nat)
    requires calls != [] && Plain(calls, depth) && i + Reads(calls) <= INPUT_SIZE && !calls[0].Byte?
    requires p.Call? && p.req == calls[0] && 0 in p.next && p.next[0] == q && q == Script(calls[1..], got, code)
    ensures Does(p, tape, i, depth, ScriptLog(calls, i), code(got + Window(tape, i, Reads(calls))))
    decreases |calls|, 0
  {
    var rest := calls[1..];
    RunScript(q, rest, got, code, tape, i, Depth(p.req, depth));
    OneCall(p, 0, q, tape, i, depth, if p.req.EnterOneOf? then StartOneOf else FinishOneOf, 0,
            ScriptLog(rest, i), code(got + Window(tape, i, Reads(calls))));
  }

  /** What the calls from `k` on are and log, when they start at byte `i`. */
  predicate Shaped(calls: seq<Request>, log: seq<Event>, k: nat, i: nat, depth: nat, count: nat) {
    && k <= |calls| && k <= |log| && Plain(calls[k..], depth)
    && Reads(calls[k..]) == count && ScriptLog(calls[k..], i) == log[k..]
  }

  lemma ShapeOfByte(calls: seq<Request>, log: seq<Event>, k: nat, i: nat, depth: nat, count: nat)
    requires k < |calls| && k < |log| && calls[k] == Byte(false) && log[k] == ReadByte(i)
    requires Shaped(calls, log, k + 1, i + 1, depth, count)
    ensures Shaped(calls, log, k, i, depth, count + 1)
  {
    assert calls[k..][1..] == calls[k + 1..] && log[k..] == [log[k]] + log[k + 1..];
  }

  lemma ShapeOfEnter(calls: seq<Request>, log: seq<Event>, k: nat, i: nat, depth: nat, count: nat)
    requires k < |calls| && k < |log| && calls[k] == EnterOneOf && log[k] == StartOneOf
    requires Shaped(calls, log, k + 1, i, depth + 1, count)
    ensures Shaped(calls, log, k, i, depth, count)
  {
    assert calls[k..][1..] == calls[k + 1..] && log[k..] == [log[k]] + log[k + 1..];
  }

  lemma ShapeOfLeave(calls: seq<Request>, log: seq<Event>, k: nat, i: nat, depth: nat, count: nat)
    requires k < |calls| && k < |log| && calls[k] == LeaveOneOf && log[k] == FinishOneOf
    requires Shaped(calls, log, k + 1, i, depth, count)
    ensures Shaped(calls, log, k, i, depth + 1, count)
  {
    assert calls[k..][1..] == calls[k + 1..] && log[k..] == [log[k]] + log[k + 1..];
  }

  /** The state of the scan after the first `k` lines. */
  ghost predicate Scanned(log: seq<Event>, k: nat, lastByte: int, open: seq<int>, last: int, cuts: seq<Cut>) {
    k <= |log| && ScanLog(log[..k], lastByte) == Scan(open, last) && CutsOfLog(log[..k], lastByte) == cuts
  }

  lemma ScanStart(log: seq<Event>, k: nat, lastByte: int, open: seq<int>, last: int, cuts: seq<Cut>, next: seq<int>)
    requires k < |log| && log[k] == StartOneOf && Scanned(log, k, lastByte, open, last, cuts) && next == open + [-1]
    ensures Scanned(log, k + 1, lastByte, next, last, cuts)
  {
    assert Front(log[..k + 1]) == log[..k] && Last(log[..k + 1]) == log[k];
  }

  lemma ScanRead(log: seq<Event>, k: nat, lastByte: int, open: seq<int>, last: int, cuts: seq<Cut>, next: seq<int>,
                 pos: nat)
    requires k < |log| && log[k] == ReadByte(pos) && Scanned(log, k, lastByte, open, last, cuts)
    requires next == if open != [] && Last(open) == -1 then open[..|open| - 1] + [pos] else open
    ensures Scanned(log, k + 1, lastByte, next, pos, cuts)
  {
    assert Front(log[..k + 1]) == log[..k] && Last(log[..k + 1]) == log[k];
  }

  lemma ScanFinish(log: seq<Event>, k: nat, lastByte: int, next: seq<int>, first: int, last: int, cuts: seq<Cut>)
    requires k < |log| && log[k] == FinishOneOf && Scanned(log, k, lastByte, next + [first], last, cuts)
    ensures Scanned(log, k + 1, lastByte, next, last, cuts + [(first, last)])
  {
    assert Front(log[..k + 1]) == log[..k] && Last(log[..k + 1]) == log[k];
  }
}
