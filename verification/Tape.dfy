/** The global input buffer and the functions that consume it. */
module Tape {
  import opened Words
  import opened Programs

  class InputTape {
    const input: array<byte>      // DeepFuzzy_Input
    var index: nat                // DeepFuzzy_InputIndex
    var initialized: nat          // DeepFuzzy_InputInitialized
    var fuzzing: bool             // DeepFuzzy_InternalFuzzing
    const rand: nat -> byte       // the bytes rand() will deliver
    var drawn: nat                // how many it has delivered

    /** The whole tape as the harness will see it, read or not. */
    ghost var tape: seq<byte>

    /** Where the buffer stops and fresh bytes begin. */
    function Filled(): nat
      reads this
    {
      if index < initialized then initialized else index
    }

    ghost predicate Valid()
      reads this, input
    {
      && input.Length == INPUT_SIZE == |tape| && index <= INPUT_SIZE && initialized <= INPUT_SIZE
      && (forall j :: 0 <= j < Filled() ==> input[j] == tape[j])
      && (forall j :: Filled() <= j < INPUT_SIZE ==> tape[j] == if fuzzing then rand(drawn + (j - Filled())) else 0)
    }

    constructor (rand: nat -> byte)
      ensures Valid() && fresh(input) && !fuzzing && index == 0
    {
      input := new byte[INPUT_SIZE](_ => 0);
      this.rand := rand;
      index, initialized, fuzzing, drawn := 0, 0, false, 0;
      tape := seq<byte>(INPUT_SIZE, _ => 0);
    }

    /** DEEPFUZZY_READBYTE: a fresh byte is stored in the buffer before it is returned. */
    method ReadByte() returns (b: byte)
      requires Valid() && index < INPUT_SIZE
      modifies `index, `drawn, input
      ensures Valid() && index == old(index) + 1 && b == tape[old(index)]
    {
      if index < initialized {
      } else if fuzzing {
        input[index] := rand(drawn);
        drawn := drawn + 1;
      } else {
        input[index] := 0;
      }
      b := input[index];
      index := index + 1;
    }

    /** `n` bytes, most significant first. */
    method ReadWord(n: nat, modulus: nat) returns (val: nat)
      requires Valid() && index + n <= INPUT_SIZE && modulus == Pow256(n)
      modifies `index, `drawn, input
      ensures Valid() && index == old(index) + n && val == BigEndian(Window(tape, old(index), n))
    {
      val := 0;
      ghost var start := index;
      for i := 0 to n
        invariant Valid() && index == start + i
        invariant val == BigEndian(Window(tape, start, i))
      {
        var b := ReadByte();
        NextByte(tape, start, i, n, val, b);
        val := (val * 256) % modulus + b;
      }
    }

    /** MAKE_SYMBOL_FUNC, with the cast of the signed variants. */
    method Symbol(ty: IntType) returns (val: int)
      requires Valid() && index + ty.Bytes() <= INPUT_SIZE
      modifies `index, `drawn, input
      ensures Valid() && index == old(index) + ty.Bytes() && val == Decode(ty, tape, old(index))
    {
      ModulusIsPower(ty);
      BigEndianFits(ty, Window(tape, index, ty.Bytes()));
      var u := ReadWord(ty.Bytes(), ty.Modulus());
      val := ty.FromUnsigned(u);
    }

    /** Answer one call of the harness; the verbose lines are part of the reply. */
    method Serve(req: Request) returns (reply: Reply)
      requires Valid()
      modifies `index, `drawn, input
      ensures reply == Answer(req, tape, old(index))
      ensures Valid() && index == old(index) + if reply.Reply? then reply.used else 0
    {
      var i := index;
      match req
      case Bool =>
        if index >= INPUT_SIZE {
          return InputExceeded;
        }
        var b := ReadByte();
        return Reply(b % 2, [Event.ReadBool(i)], 1);
      case Byte(noNull) =>
        if index >= INPUT_SIZE {
          return InputExceeded;
        }
        var b := ReadByte();
        if noNull && b == 0 {
          return Reply(1, [Event.ReadByte(i)], 1);
        }
        return Reply(b, [Event.ReadByte(i)], 1);
      case Word(ty) =>
        if index + ty.Bytes() > INPUT_SIZE {
          return InputExceeded;
        }
        var val := Symbol(ty);
        return Reply(val, MultiLog(i, ty.Bytes()), ty.Bytes());
      case InRange(range) =>
        reply := ServeRange(range);
      case EnterOneOf =>
        return Reply(0, [StartOneOf], 0);
      case LeaveOneOf =>
        return Reply(0, [FinishOneOf], 0);
      case Say(_) =>
        return Reply(0, [], 0);
    }

    /** The InRange functions. */
    method ServeRange(range: Range) returns (reply: Reply)
      requires Valid()
      modifies `index, `drawn, input
      ensures reply == Answer(InRange(range), tape, old(index))
      ensures Valid() && index == old(index) + if reply.Reply? then reply.used else 0
    {
      var i, n := index, range.ty.Bytes();
      var low, high := range.a, range.b;
      if low == high {
        return Reply(low, [], 0);
      } else if low > high {
        low, high := high, low;
      }
      if index + n > INPUT_SIZE {
        return InputExceeded;
      }
      var x := Symbol(range.ty);
      if x < low || x > high {
        var c := ConvertIntoRange(range, low, high, x);
        return Reply(c.value, MultiLog(i, n) + (if c.converted then [Converting(c.value)] else []), n);
      }
      return Reply(x, MultiLog(i, n) + [], n);
    }

    /** The out-of-range branch of InRange: the checked arithmetic, and whether its
        line is printed. */
    static method ConvertIntoRange(range: Range, low: int, high: int, x: int) returns (c: Clamped)
      requires range.ty.Holds(x) && low == range.Low() && high == range.High() && (x < low || x > high)
      ensures c == Clamp(range, x)
    {
      InRangeInBounds(range, x);
      var usize := high - low;
      if usize >= range.ty.Modulus() {
        return Clamped(low, false);
      }
      usize := usize + 1;
      if usize >= range.ty.Modulus() {
        return Clamped(high, false);
      }
      var ret := low + range.ty.FromUnsigned(range.ty.ToUnsigned(x) % usize);
      if !range.ty.Holds(ret) {
        return Clamped(high, false);
      }
      return Clamped(ret, true);
    }

    /** Run a harness on this tape.  What happens is what the semantics of harnesses
        says about the tape. */
    method Play(p: Program, depth: nat) returns (r: Run)
      requires Valid()
      modifies `index, `drawn, input
      ensures Valid() && r == RunFrom(p, Programs.Serve(tape), old(index), depth) && r.index == index
      decreases p, 1
    {
      match p
      case Halt(exit) =>
        return Run([], [], [], index, exit);
      case Call(req, next) =>
        if req.LeaveOneOf? && depth == 0 {
          return Run([], [], [], index, Crashed);
        }
        ghost var f, at := Programs.Serve(tape), index;
        var reply := Serve(req);
        assert reply == f(req, at);
        if reply.InputExceeded? {
          return Run([], [], [], index, Abandoned);
        }
        r := PlayOn(p, reply.value, Depth(req, depth));
        UnrollRun(p, f, at, depth);
        assert r == After(p, f, at, depth);
        r := Prepend(reply.value, reply.log, Printed(req), r);
    }

    method PlayOn(p: Program, v: int, depth: nat) returns (r: Run)
      requires Valid() && p.Call?
      modifies `index, `drawn, input
      ensures Valid() && r == Resume(p, v, Programs.Serve(tape), old(index), depth) && r.index == index
      decreases p, 0
    {
      if v in p.next {
        r := Play(p.next[v], depth);
      } else {
        r := Run([], [], [], index, Crashed);
      }
    }

    /** DeepFuzzy_InitInputFromFile: what does not fit is dropped. */
    method Load(file: seq<byte>)
      requires Valid() && !fuzzing
      modifies `index, `initialized, `tape, input
      ensures Valid() && index == 0 && AgreeOn(tape, file, 0, INPUT_SIZE)
    {
      var count := if |file| > INPUT_SIZE then INPUT_SIZE else |file|;
      for i := 0 to count
        invariant input.Length == INPUT_SIZE && forall j :: 0 <= j < i ==> input[j] == file[j]
      {
        input[i] := file[i];
      }
      index := 0;
      initialized := count;
      tape := seq<byte>(INPUT_SIZE, j requires 0 <= j < INPUT_SIZE => At(file, j));
    }

    /** The start of DeepFuzzy_FuzzOneTestCase. */
    method StartFuzzing()
      requires Valid()
      modifies `index, `initialized, `fuzzing, `tape
      ensures Valid() && index == 0 && fuzzing
      ensures forall j :: 0 <= j < INPUT_SIZE ==> tape[j] == rand(drawn + j)
    {
      index, initialized, fuzzing := 0, 0, true;
      ghost var (next, stream) := (drawn, rand);
      tape := seq<byte>(INPUT_SIZE, j requires 0 <= j < INPUT_SIZE => stream(next + j));
    }

    /** The bytes that writeInputData puts into the saved file. */
    method Save() returns (file: seq<byte>)
      requires Valid()
      ensures file == tape[..index]
    {
      file := input[..index];
    }

    /** A fuzzing run and the file it saves. */
    method Record(p: Program) returns (r: Run, file: seq<byte>)
      requires Valid()
      modifies this, input
      ensures Valid() && r == Execute(p, tape) && r.index <= |tape| && file == tape[..r.index]
      ensures forall j :: 0 <= j < |tape| ==> tape[j] == rand(old(drawn) + j)
    {
      StartFuzzing();
      r := Play(p, 0);
      file := Save();
    }

    /** A run on a saved file. */
    method Replay(p: Program, file: seq<byte>) returns (r: Run)
      requires Valid() && !fuzzing && |file| <= INPUT_SIZE
      modifies this, input
      ensures Valid() && r == Execute(p, file)
    {
      Load(file);
      r := Play(p, 0);
      SameBytesSameRun(p, tape, file);
    }
  }

  lemma NextByte(tape: seq<byte>, start: nat, i: nat, n: nat, val: nat, b: byte)
    requires i < n && val == BigEndian(Window(tape, start, i)) && b == At(tape, start + i)
    ensures BigEndian(Window(tape, start, i + 1)) == (val * 256) % Pow256(n) + b
  {
    var w := Window(tape, start, i + 1);
    assert w[..i] == Window(tape, start, i);
    BigEndianBound(w[..i]);
    PowerGrows(i + 1, n);
    SmallRemainder(val * 256, Pow256(n));
  }

  lemma SmallRemainder(a: nat, m: nat)
    requires a < m
    ensures a % m == a
  {
  }

  lemma {:induction false} PowerGrows(i: nat, n: nat)
    requires i <= n
    ensures Pow256(i) <= Pow256(n)
    decreases n
  {
    if i < n {
      PowerGrows(i, n - 1);
    }
  }

  /** Record and replay: a fuzzing run draws its bytes as it goes; the saved file,
      loaded into another process and replayed, gives the same run: the same values,
      verbose lines, output, bytes consumed and end. */
  method RecordAndReplay(p: Program, recorder: InputTape, player: InputTape)
    returns (recorded: Run, file: seq<byte>, replayed: Run)
    requires recorder.Valid() && player.Valid() && !player.fuzzing
    requires recorder != player && recorder.input != player.input
    modifies recorder, recorder.input, player, player.input
    ensures replayed == recorded && |file| == recorded.index
    ensures forall j :: 0 <= j < |file| ==> file[j] == recorder.rand(old(recorder.drawn) + j)
  {
    recorded, file := recorder.Record(p);
    ReplayRepeats(p, recorder.tape);
    replayed := player.Replay(p, file);
  }
}
