/** What a drawn swarm configuration is, told by the bytes of the tape, and which
    stored one a lookup finds. */
module SwarmDraws {
  import opened Words
  import opened Programs
  import opened Swarm

  // ----- the lookup

  /** The entry was made at that line, for as many choices, in a file whose name starts
      with the asked one. */
  ghost predicate Stored(c: Config, key: Key) {
    && c.key.line == key.line && c.key.count == key.count
    && |key.file| <= |c.key.file| && c.key.file[..|key.file|] == key.file
  }

  /** Entry `i` is the first one of its kind. */
  ghost predicate FirstStored(table: Table, key: Key, i: int) {
    0 <= i < |table| && Stored(table[i], key) && forall j :: 0 <= j < i ==> !Stored(table[j], key)
  }

  ghost predicate NoneStored(table: Table, key: Key) {
    forall i :: 0 <= i < |table| ==> !Stored(table[i], key)
  }

  /** A lookup finds the first entry with the same line, the same count and a file that
      starts with the asked one, and fails only if there is none. */
  lemma {:induction false} FindExactly(table: Table, key: Key)
    ensures Find(table, key).None? <==> NoneStored(table, key)
    ensures forall i :: FirstStored(table, key, i) ==> Find(table, key) == Some(table[i].fmap)
  {
    if table != [] {
      var rest := table[1..];
      assert forall i :: 0 <= i < |rest| ==> rest[i] == table[i + 1];
      FindExactly(rest, key);
      if Stored(table[0], key) {
        assert key.file <= table[0].key.file;
      } else {
        assert !(key.file <= table[0].key.file && table[0].key.line == key.line && table[0].key.count == key.count);
        assert NoneStored(table, key) <==> NoneStored(rest, key);
        forall i | FirstStored(table, key, i)
          ensures FirstStored(rest, key, i - 1)
        {
        }
      }
    }
  }

  // ----- a toss for each choice

  /** The toss for choice `x`, one byte each from position `at` on, comes up. */
  predicate Up(tape: seq<byte>, at: nat, x: nat) {
    At(tape, at + x) % 2 == 1
  }

  ghost predicate SomeUp(tape: seq<byte>, at: nat, n: nat) {
    exists x: nat :: x < n && Up(tape, at, x)
  }

  /** In order and once each, the choices below `i` whose toss came up. */
  ghost predicate Picked(tape: seq<byte>, at: nat, i: nat, fmap: seq<nat>) {
    && (forall x: nat :: x in fmap <==> x < i && Up(tape, at, x))
    && (forall a, b :: 0 <= a < b < |fmap| ==> fmap[a] < fmap[b])
  }

  /** The single choice that is drawn where nothing was picked; it costs a word unless
      there is but one choice. */
  ghost predicate LastResort(tape: seq<byte>, n: nat, at: nat, d: Drawn) {
    0 < n <= 0x1_0000_0000 &&
    if n == 1 then d.fmap == Some([0]) && d.at == at
    else if at + 4 > INPUT_SIZE then d.fmap.None?
    else
      var c := Clamp(Bounds(UInt, 0, n - 1), Decode(UInt, tape, at)).value;
      c >= 0 && d.fmap == Some([c as nat]) && d.at == at + 4
  }

  /** What `n` tosses from position `at` on draw. */
  ghost predicate TossedFrom(tape: seq<byte>, n: nat, at: nat, d: Drawn) {
    if at + n > INPUT_SIZE then d.fmap.None?
    else if SomeUp(tape, at, n) then
      d.fmap.Some? && d.at == at + n && Picked(tape, at, n, d.fmap.value)
    else LastResort(tape, n, at + n, d)
  }

  lemma FinishDraws(tape: seq<byte>, n: nat, at: nat, d: Drawn)
    requires 0 < n <= 0x1_0000_0000 && d == DrawFinish(Programs.Serve(tape), n, [], at)
    ensures LastResort(tape, n, at, Bare(d))
  {
    var a := Programs.Serve(tape)(InRange(Choice(n)), at);
    assert a == Answer(InRange(Choice(n)), tape, at);
    if n > 1 {
      InRangeInBounds(Choice(n), Decode(UInt, tape, at));
    }
  }

  lemma {:induction false} PureDraws(tape: seq<byte>, f: Server, i: nat, n: nat, fmap: seq<nat>, at: nat)
    requires 0 < n <= 0x1_0000_0000 && i <= n && Picked(tape, at, i, fmap) && at + i <= INPUT_SIZE
    requires f == Programs.Serve(tape)
    ensures TossedFrom(tape, n, at, Bare(DrawPure(f, i, n, false, fmap, at + i)))
    decreases n - i
  {
    if i < n {
      var more := TossTurn(tape, f, i, n, fmap, at);
      if at + i < INPUT_SIZE {
        PureDraws(tape, f, i + 1, n, more, at);
      }
    } else {
      AllTossed(tape, n, fmap, at, DrawFinish(f, n, fmap, at + n));
    }
  }

  lemma TossAnswer(tape: seq<byte>, at: nat, x: nat)
    ensures var a := Programs.Serve(tape)(Bool, at + x);
      if at + x >= INPUT_SIZE then a.InputExceeded?
      else a.Reply? && a.used == 1 && (a.value == 1 <==> Up(tape, at, x))
  {
    assert Programs.Serve(tape)(Bool, at + x) == Answer(Bool, tape, at + x);
  }

  /** One turn: the tape is used up, or there is one more toss. */
  lemma TossTurn(tape: seq<byte>, f: Server, i: nat, n: nat, fmap: seq<nat>, at: nat) returns (more: seq<nat>)
    requires 0 < n <= 0x1_0000_0000 && i < n && Picked(tape, at, i, fmap) && f == Programs.Serve(tape)
    ensures if at + i >= INPUT_SIZE then Bare(DrawPure(f, i, n, false, fmap, at + i)) == Drawn(None, [], [], at + i)
            else Bare(DrawPure(f, i, n, false, fmap, at + i)) == Bare(DrawPure(f, i + 1, n, false, more, at + (i + 1)))
                 && Picked(tape, at, i + 1, more)
  {
    TossAnswer(tape, at, i);
    var a := f(Bool, at + i);
    more := if a.Reply? && a.value == 1 then fmap + [i] else fmap;
    if a.Reply? {
      OneMorePicked(tape, at, i, fmap, a.value == 1);
    }
  }

  lemma OneMorePicked(tape: seq<byte>, at: nat, i: nat, fmap: seq<nat>, up: bool)
    requires Picked(tape, at, i, fmap) && (up <==> Up(tape, at, i))
    ensures Picked(tape, at, i + 1, if up then fmap + [i] else fmap)
  {
    forall a | 0 <= a < |fmap|
      ensures fmap[a] < i
    {
      assert fmap[a] in fmap;
    }
    forall x: nat
      ensures x in fmap + [i] <==> x in fmap || x == i
    {
    }
  }

  lemma AllTossed(tape: seq<byte>, n: nat, fmap: seq<nat>, at: nat, d: Drawn)
    requires 0 < n <= 0x1_0000_0000 && Picked(tape, at, n, fmap) && at + n <= INPUT_SIZE
    requires d == DrawFinish(Programs.Serve(tape), n, fmap, at + n)
    ensures TossedFrom(tape, n, at, Bare(d))
  {
    if fmap == [] {
      assert !SomeUp(tape, at, n);
      FinishDraws(tape, n, at + n, d);
    } else {
      assert fmap[0] in fmap && Up(tape, at, fmap[0]) && SomeUp(tape, at, n);
    }
  }

  /** The map and the position, without what was returned and logged. */
  function Bare(d: Drawn): Drawn {
    Drawn(d.fmap, [], [], d.at)
  }

  // ----- a weight for each choice

  /** The weight of choice `x`: a word each, brought into the range from 0 to 16. */
  function WeightOf(tape: seq<byte>, at: nat, x: nat): int {
    Clamp(Bounds(UInt, 0, 16), Decode(UInt, tape, at + 4 * x)).value
  }

  /** In order, each choice below `i` as often as it weighs. */
  ghost predicate Weighs(tape: seq<byte>, at: nat, i: nat, fmap: seq<nat>) {
    && (forall x: nat :: multiset(fmap)[x] == if x < i then WeightOf(tape, at, x) else 0)
    && (forall a, b :: 0 <= a < b < |fmap| ==> fmap[a] <= fmap[b])
  }

  /** What `n` weights from position `at` on draw. */
  ghost predicate WeighedFrom(tape: seq<byte>, n: nat, at: nat, d: Drawn) {
    if at + 4 * n > INPUT_SIZE then d.fmap.None?
    else if exists x: nat :: x < n && WeightOf(tape, at, x) > 0 then
      d.fmap.Some? && d.at == at + 4 * n && Weighs(tape, at, n, d.fmap.value)
    else LastResort(tape, n, at + 4 * n, d)
  }

  lemma {:induction false} Repeated(x: nat, p: nat, y: nat)
    ensures multiset(Repeat(x, p))[y] == if x == y then p else 0
  {
    if p > 0 {
      assert Repeat(x, p) == Repeat(x, p - 1) + [x];
      Repeated(x, p - 1, y);
    }
  }

  lemma OneMoreWeight(tape: seq<byte>, at: nat, i: nat, fmap: seq<nat>, p: nat)
    requires Weighs(tape, at, i, fmap) && p == WeightOf(tape, at, i)
    ensures Weighs(tape, at, i + 1, fmap + Repeat(i, p))
  {
    forall x: nat
      ensures multiset(fmap + Repeat(i, p))[x] == if x < i + 1 then WeightOf(tape, at, x) else 0
    {
      Repeated(i, p, x);
    }
    forall a | 0 <= a < |fmap|
      ensures fmap[a] < i
    {
      assert multiset(fmap)[fmap[a]] > 0;
    }
  }

  lemma WeightAnswer(tape: seq<byte>, at: nat, x: nat)
    ensures var a := Programs.Serve(tape)(Weight(), at + 4 * x);
      if at + 4 * x + 4 > INPUT_SIZE then a.InputExceeded?
      else a.Reply? && a.used == 4 && a.value == WeightOf(tape, at, x) >= 0
  {
    assert Programs.Serve(tape)(Weight(), at + 4 * x) == Answer(Weight(), tape, at + 4 * x);
    InRangeInBounds(Bounds(UInt, 0, 16), Decode(UInt, tape, at + 4 * x));
  }

  lemma {:induction false} ProbDraws(tape: seq<byte>, i: nat, n: nat, fmap: seq<nat>, at: nat, pos: nat)
    requires 0 < n <= 0x1_0000_0000 && i <= n && Weighs(tape, at, i, fmap) && pos == at + 4 * i <= INPUT_SIZE
    ensures WeighedFrom(tape, n, at, ProbBare(tape, i, n, fmap, pos))
    decreases n - i
  {
    if i < n {
      var more := WeightTurn(tape, i, n, fmap, at, pos);
      if pos + 4 <= INPUT_SIZE {
        ProbDraws(tape, i + 1, n, more, at, pos + 4);
      }
    } else {
      AllWeighed(tape, n, fmap, at, pos);
    }
  }

  function ProbBare(tape: seq<byte>, i: nat, n: nat, fmap: seq<nat>, pos: nat): Drawn
    requires 0 < n <= 0x1_0000_0000
  {
    Bare(DrawProb(Programs.Serve(tape), i, n, fmap, pos))
  }

  /** One turn: the tape is used up, or there is one more weight. */
  lemma WeightTurn(tape: seq<byte>, i: nat, n: nat, fmap: seq<nat>, at: nat, pos: nat) returns (more: seq<nat>)
    requires 0 < n <= 0x1_0000_0000 && i < n && Weighs(tape, at, i, fmap) && pos == at + 4 * i
    ensures if pos + 4 > INPUT_SIZE then ProbBare(tape, i, n, fmap, pos) == Drawn(None, [], [], pos)
            else ProbBare(tape, i, n, fmap, pos) == ProbBare(tape, i + 1, n, more, pos + 4)
                 && Weighs(tape, at, i + 1, more)
  {
    var f := Programs.Serve(tape);
    var a := f(Weight(), pos);
    WeightAnswer(tape, at, i);
    if a.Reply? {
      more := fmap + Repeat(i, a.value);
      WeightReplied(f, i, n, fmap, pos, a);
      OneMoreWeight(tape, at, i, fmap, a.value);
    } else {
      more := fmap;
    }
  }

  lemma WeightReplied(f: Server, i: nat, n: nat, fmap: seq<nat>, pos: nat, a: Reply)
    requires 0 < n <= 0x1_0000_0000 && i < n && f(Weight(), pos) == a && a.Reply? && a.value >= 0
    ensures Bare(DrawProb(f, i, n, fmap, pos)) == Bare(DrawProb(f, i + 1, n, fmap + Repeat(i, a.value), pos + a.used))
  {
    ProbDrawn(f, i, n, fmap, pos, a);
  }

  lemma AllWeighed(tape: seq<byte>, n: nat, fmap: seq<nat>, at: nat, pos: nat)
    requires 0 < n <= 0x1_0000_0000 && Weighs(tape, at, n, fmap) && pos == at + 4 * n <= INPUT_SIZE
    ensures WeighedFrom(tape, n, at, ProbBare(tape, n, n, fmap, pos))
  {
    if fmap == [] {
      assert forall x: nat :: x < n ==> multiset(fmap)[x] == 0;
      FinishDraws(tape, n, pos, DrawFinish(Programs.Serve(tape), n, fmap, pos));
    } else {
      assert multiset(fmap)[fmap[0]] > 0;
    }
  }

  // ----- every kind

  /** A pure configuration allows the choices whose toss comes up, a mixed one all of
      them or, after a toss of its own, the same; a weighted one repeats each choice as
      often as it weighs.  Where that leaves none, one is drawn. */
  ghost predicate DrawnFrom(tape: seq<byte>, kind: Kind, n: nat, at: nat, d: Drawn) {
    match kind
    case Pure => TossedFrom(tape, n, at, d)
    case Prob => WeighedFrom(tape, n, at, d)
    case Mixed =>
      if at >= INPUT_SIZE then d.fmap.None?
      else if Up(tape, at, 0) then d.fmap == Some(seq(n, x => x)) && d.at == at + 1
      else TossedFrom(tape, n, at + 1, d)
  }

  lemma DrawsFromTape(tape: seq<byte>, kind: Kind, n: nat, at: nat)
    requires 0 < n <= 0x1_0000_0000 && at <= INPUT_SIZE
    ensures DrawnFrom(tape, kind, n, at, Bare(Draw(Programs.Serve(tape), kind, n, at)))
  {
    var f := Programs.Serve(tape);
    match kind
    case Pure =>
      PureDraws(tape, f, 0, n, [], at);
    case Prob =>
      assert Weighs(tape, at, 0, []);
      ProbDraws(tape, 0, n, [], at, at);
    case Mixed =>
      TossAnswer(tape, at, 0);
      if at < INPUT_SIZE {
        PureDraws(tape, f, 0, n, [], at + 1);
        FullDraws(f, 0, n, [], at + 1);
      }
  }

  lemma {:induction false} FullDraws(f: Server, i: nat, n: nat, fmap: seq<nat>, at: nat)
    requires 0 < n <= 0x1_0000_0000 && i <= n && fmap == seq(i, x => x)
    ensures Bare(DrawPure(f, i, n, true, fmap, at)) == Drawn(Some(seq(n, x => x)), [], [], at)
    decreases n - i
  {
    if i < n {
      assert fmap + [i] == seq(i + 1, x => x);
      FullDraws(f, i + 1, n, fmap + [i], at);
    }
  }
}
