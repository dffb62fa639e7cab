/** The memo table of swarm configurations, filled while a harness runs on the
    input tape. */
module SwarmTables {
  import opened Words
  import opened Programs
  import opened Tape
  import opened Swarm
  import opened SwarmDraws

  /** Every stored map is usable for the count and the kind it was made for, and
      its length fits an unsigned. */
  ghost predicate Usable(table: Table, kinds: seq<Kind>) {
    && |kinds| == |table| <= MAX_CONFIGS
    && forall i :: 0 <= i < |table| ==>
        WellFormed(table[i].fmap, kinds[i], table[i].key.count) && |table[i].fmap| < 0x1_0000_0000
  }

  /** Each weight takes four bytes of the tape, so weighted counts are small. */
  lemma {:induction false} WeighingCosts(tape: seq<byte>, i: nat, n: nat, fmap: seq<nat>, at: nat)
    requires 0 < n <= 0x1_0000_0000 && i <= n && at <= INPUT_SIZE
    ensures DrawProb(Programs.Serve(tape), i, n, fmap, at).fmap.Some? ==> at + 4 * (n - i) <= INPUT_SIZE
    decreases n - i
  {
    var a := Programs.Serve(tape)(Weight(), at);
    if i < n && a.Reply? {
      assert a == Answer(Weight(), tape, at);
      TapeIsHonest(tape);
      assert Within(a.value, MAX_PROB_RATIO + 1);
      WeighingCosts(tape, i + 1, n, fmap + Repeat(i, a.value), at + a.used);
    }
  }

  lemma AppendCons(values: seq<int>, log: seq<Event>, v: int, more: seq<Event>, d: Drawn)
    ensures Append(values, log, Cons(v, more, d)) == Append(values + [v], log + more, d)
  {
    assert values + ([v] + d.values) == values + [v] + d.values;
    assert log + (more + d.log) == log + more + d.log;
  }

  lemma AppendNothing(d: Drawn)
    ensures Append([], [], d) == d
  {
    assert [] + d.values == d.values && [] + d.log == d.log;
  }

  /** Where the weighted loop stands: what is still to draw completes `goal`. */
  ghost predicate Weighed(goal: Drawn, f: Server, i: nat, n: nat, fmap: seq<nat>, at: nat,
                          values: seq<int>, log: seq<Event>)
  {
    0 < n <= 0x1_0000_0000 && goal == Append(values, log, DrawProb(f, i, n, fmap, at))
  }

  lemma WeighStart(f: Server, n: nat, at: nat)
    requires 0 < n <= 0x1_0000_0000
    ensures Weighed(DrawProb(f, 0, n, [], at), f, 0, n, [], at, [], [])
  {
    AppendNothing(DrawProb(f, 0, n, [], at));
  }

  lemma WeighEnd(goal: Drawn, f: Server, n: nat, fmap: seq<nat>, at: nat, values: seq<int>, log: seq<Event>)
    requires Weighed(goal, f, n, n, fmap, at, values, log)
    ensures goal == Append(values, log, DrawFinish(f, n, fmap, at))
  {
  }

  lemma WeighOne(goal: Drawn, f: Server, i: nat, n: nat, fmap: seq<nat>, at: nat, a: Reply,
                 values: seq<int>, log: seq<Event>)
    requires Weighed(goal, f, i, n, fmap, at, values, log) && i < n && f(Weight(), at) == a
    requires a.Reply? ==> a.value >= 0
    ensures a.InputExceeded? ==> goal == Drawn(None, values, log, at)
    ensures a.Reply? ==>
      Weighed(goal, f, i + 1, n, fmap + Repeat(i, a.value), at + a.used, values + [a.value], log + a.log)
  {
    if a.Reply? {
      ProbDrawn(f, i, n, fmap, at, a);
      AppendCons(values, log, a.value, a.log, DrawProb(f, i + 1, n, fmap + Repeat(i, a.value), at + a.used));
    }
  }

  /** Where the other loop stands. */
  ghost predicate Tossed(goal: Drawn, f: Server, i: nat, n: nat, full: bool, fmap: seq<nat>, at: nat,
                         values: seq<int>, log: seq<Event>)
  {
    0 < n <= 0x1_0000_0000 && goal == Append(values, log, DrawPure(f, i, n, full, fmap, at))
  }

  lemma TossStart(f: Server, n: nat, full: bool, at: nat)
    requires 0 < n <= 0x1_0000_0000
    ensures Tossed(DrawPure(f, 0, n, full, [], at), f, 0, n, full, [], at, [], [])
  {
    AppendNothing(DrawPure(f, 0, n, full, [], at));
  }

  lemma TossEnd(goal: Drawn, f: Server, n: nat, full: bool, fmap: seq<nat>, at: nat, values: seq<int>, log: seq<Event>)
    requires Tossed(goal, f, n, n, full, fmap, at, values, log)
    ensures goal == Append(values, log, DrawFinish(f, n, fmap, at))
  {
  }

  lemma KeepOne(goal: Drawn, f: Server, i: nat, n: nat, fmap: seq<nat>, at: nat, values: seq<int>, log: seq<Event>)
    requires Tossed(goal, f, i, n, true, fmap, at, values, log) && i < n
    ensures Tossed(goal, f, i + 1, n, true, fmap + [i], at, values, log)
  {
  }

  lemma TossOne(goal: Drawn, f: Server, i: nat, n: nat, fmap: seq<nat>, at: nat, a: Reply,
                values: seq<int>, log: seq<Event>)
    requires Tossed(goal, f, i, n, false, fmap, at, values, log) && i < n && f(Bool, at) == a
    ensures a.InputExceeded? ==> goal == Drawn(None, values, log, at)
    ensures a.Reply? ==>
      Tossed(goal, f, i + 1, n, false, if a.value == 1 then fmap + [i] else fmap, at + a.used,
             values + [a.value], log + a.log)
  {
    if a.Reply? {
      AppendCons(values, log, a.value, a.log,
                 DrawPure(f, i + 1, n, false, if a.value == 1 then fmap + [i] else fmap, at + a.used));
    }
  }

  /** What asking for a configuration yields, and what it costs: nothing when one
      is stored already. */
  function Fetch(f: Server, table: Table, key: Key, kind: Kind, at: nat): Drawn
    requires 0 < key.count <= 0x1_0000_0000
  {
    var found := Find(table, key);
    if found.Some? then Drawn(found, [], [], at)
    else if |table| >= MAX_CONFIGS then Drawn(None, [], [], at)
    else Draw(f, kind, key.count, at)
  }

  /** The table afterwards. */
  function Remembered(table: Table, key: Key, fmap: Option<seq<nat>>): Table {
    if fmap.None? || Find(table, key).Some? then table else table + [Config(key, fmap.value)]
  }

  /** Nothing is stored for the key: the table is full, or a new map is drawn from the
      tape and, if the draw completes, appended. */
  ghost predicate NewlyDrawn(tape: seq<byte>, before: Table, key: Key, kind: Kind, at: nat, d: Drawn, after: Table) {
    && (if |before| >= 1024 then d == Drawn(None, [], [], at)
        else DrawnFrom(tape, kind, key.count, at, Bare(d)))
    && after == if d.fmap.Some? then before + [Config(key, d.fmap.value)] else before
  }

  /** What a request yields: the map of the first entry for the key, without input and
      with the table as it was, or a new one. */
  ghost predicate Fetched(tape: seq<byte>, before: Table, key: Key, kind: Kind, at: nat, d: Drawn, after: Table) {
    && (forall i :: FirstStored(before, key, i) ==> d == Drawn(Some(before[i].fmap), [], [], at) && after == before)
    && (NoneStored(before, key) ==> NewlyDrawn(tape, before, key, kind, at, d, after))
  }

  lemma FetchExactly(tape: seq<byte>, table: Table, key: Key, kind: Kind, at: nat)
    requires 0 < key.count < 0x1_0000_0000 && at <= INPUT_SIZE
    ensures var d := Fetch(Programs.Serve(tape), table, key, kind, at);
      Fetched(tape, table, key, kind, at, d, Remembered(table, key, d.fmap))
  {
    FindExactly(table, key);
    DrawsFromTape(tape, kind, key.count, at);
  }

  // ----- the values a run returned determine the table it leaves

  lemma SensibleNext(h: Harness, v: int)
    requires Sensible(h) && h.Ask? && v in h.next
    ensures Sensible(h.next[v])
  {
  }

  ghost function TableOf(h: Harness, table: Table, values: seq<int>): Table
    requires Sensible(h)
    decreases h, 1
  {
    match h
    case Stop(_) => table
    case Ask(_, next) =>
      if values != [] && values[0] in next then
        SensibleNext(h, values[0]);
        TableOf(next[values[0]], table, values[1..])
      else table
    case Configure(key, kind, choose) =>
      var found := Find(table, key);
      if found.Some? then TableOn(h, found.value, table, values)
      else if |table| >= MAX_CONFIGS then table
      else match ParseGen(kind, key.count, values)
        case Incomplete => table
        case Parsed(fmap, rest) => TableOn(h, fmap, table + [Config(key, fmap)], rest)
  }

  ghost function TableOn(h: Harness, fmap: seq<nat>, table: Table, values: seq<int>): Table
    requires Sensible(h) && h.Configure?
    decreases h, 0
  {
    if fmap in h.choose then TableOf(h.choose[fmap], table, values) else table
  }

  /** The run after an answered request: the harness goes on, or has no branch. */
  ghost function AfterAsk(h: Harness, v: int, table: Table, f: Server, at: nat, depth: nat): Run
    requires Sensible(h) && h.Ask?
  {
    if v in h.next then
      SensibleNext(h, v);
      RunFrom(Plain(h.next[v], table), f, at, depth)
    else Run([], [], [], at, Crashed)
  }

  lemma AskRuns(h: Harness, f: Server, table: Table, at: nat, depth: nat, a: Reply, r: Run)
    requires Sensible(h) && h.Ask? && !(h.req.LeaveOneOf? && depth == 0) && f(h.req, at) == a && a.Reply?
    requires r == AfterAsk(h, a.value, table, f, at + a.used, Depth(h.req, depth))
    ensures RunFrom(Plain(h, table), f, at, depth) == Prepend(a.value, a.log, Printed(h.req), r)
    ensures a.value in h.next ==> Sensible(h.next[a.value])
    ensures TableOf(h, table, [a.value] + r.values)
         == if a.value in h.next then TableOf(h.next[a.value], table, r.values) else table
  {
    UnrollRun(Plain(h, table), f, at, depth);
    assert ([a.value] + r.values)[1..] == r.values;
    if a.value in h.next {
      SensibleNext(h, a.value);
    }
  }

  lemma TableAfterFetch(h: Harness, f: Server, table: Table, at: nat, rest: seq<int>)
    requires Sensible(h) && h.Configure? && Honest(f)
    ensures var d := Fetch(f, table, h.key, h.kind, at);
      TableOf(h, table, d.values + Tail(d, rest))
      == if d.fmap.None? then table else TableOn(h, d.fmap.value, Remembered(table, h.key, d.fmap), rest)
  {
    var d := Fetch(f, table, h.key, h.kind, at);
    assert [] + Tail(d, rest) == Tail(d, rest);
    if Find(table, h.key).None? && |table| < MAX_CONFIGS {
      DrawParses(f, h.kind, h.key.count, at, rest);
    }
  }

  lemma FetchRuns(h: Harness, f: Server, table: Table, at: nat, depth: nat)
    requires Sensible(h) && h.Configure? && Honest(f)
    ensures var d := Fetch(f, table, h.key, h.kind, at);
      RunFrom(Plain(h, table), f, at, depth)
      == Then(d, if d.fmap.None? then Run([], [], [], d.at, Abandoned)
                 else RunFrom(Chosen(h, d.fmap.value, Remembered(table, h.key, d.fmap)), f, d.at, depth))
  {
    var d := Fetch(f, table, h.key, h.kind, at);
    if Find(table, h.key).None? && |table| < MAX_CONFIGS {
      var k: Rest := fmap => Chosen(h, fmap, table + [Config(h.key, fmap)]);
      RunAtSteps(f, depth);
      GenRuns(f, RunAt(f, depth), h.kind, h.key.count, at, k);
      assert Plain(h, table) == Gen(h.kind, h.key.count, k);
    } else {
      var r := RunFrom(Plain(h, table), f, at, depth);
      assert [] + r.values == r.values && [] + r.log == r.log;
    }
  }

  // ----- a stored configuration stays

  lemma {:induction false} FindStays(table: Table, more: Table, key: Key)
    requires Find(table, key).Some?
    ensures Find(table + more, key) == Find(table, key)
  {
    if !Matches(table[0], key) {
      assert (table + more)[1..] == table[1..] + more;
      FindStays(table[1..], more, key);
    }
  }

  lemma {:induction false} FindNew(table: Table, key: Key, fmap: seq<nat>)
    requires Find(table, key).None?
    ensures Find(table + [Config(key, fmap)], key) == Some(fmap)
  {
    if table != [] {
      assert (table + [Config(key, fmap)])[1..] == table[1..] + [Config(key, fmap)];
      FindNew(table[1..], key, fmap);
    }
  }

  lemma {:induction false} TableGrows(h: Harness, table: Table, values: seq<int>)
    requires Sensible(h)
    ensures table <= TableOf(h, table, values)
    decreases h, 1
  {
    if h.Ask? {
      if values != [] && values[0] in h.next {
        SensibleNext(h, values[0]);
        TableGrows(h.next[values[0]], table, values[1..]);
      }
    } else if h.Configure? {
      if Find(table, h.key).Some? {
        TableOnGrows(h, Find(table, h.key).value, table, values);
      } else if |table| < MAX_CONFIGS && ParseGen(h.kind, h.key.count, values).Parsed? {
        var p := ParseGen(h.kind, h.key.count, values);
        TableOnGrows(h, p.fmap, table + [Config(h.key, p.fmap)], p.rest);
      }
    }
  }

  lemma TableOnGrows(h: Harness, fmap: seq<nat>, table: Table, values: seq<int>)
    requires Sensible(h) && h.Configure?
    ensures table <= TableOn(h, fmap, table, values)
    decreases h, 0
  {
    if fmap in h.choose {
      TableGrows(h.choose[fmap], table, values);
    }
  }

  /** Once a call site has its configuration, it gets the same one for the rest of
      the run, whatever happens in between and whatever kind it asks for, and it
      costs no input. */
  lemma AskedAgain(f: Server, table: Table, key: Key, kind: Kind, at: nat, h: Harness, values: seq<int>,
                   again: Kind, later: nat)
    requires 0 < key.count < 0x1_0000_0000 && Sensible(h)
    requires Fetch(f, table, key, kind, at).fmap.Some?
    ensures var fmap := Fetch(f, table, key, kind, at).fmap;
      Fetch(f, TableOf(h, Remembered(table, key, fmap), values), key, again, later) == Drawn(fmap, [], [], later)
  {
    var fmap := Fetch(f, table, key, kind, at).fmap;
    var kept := Remembered(table, key, fmap);
    if Find(table, key).None? {
      FindNew(table, key, fmap.value);
    }
    TableGrows(h, kept, values);
    var now := TableOf(h, kept, values);
    assert now == kept + now[|kept|..];
    FindStays(kept, now[|kept|..], key);
  }

  predicate IndexInto(fmap: seq<nat>, count: nat) {
    forall i :: 0 <= i < |fmap| ==> fmap[i] < count
  }

  /** What a lookup finds can index the asked choices, and is not empty. */
  lemma {:induction false} FoundIsUsable(table: Table, kinds: seq<Kind>, key: Key)
    requires Usable(table, kinds) && Find(table, key).Some?
    ensures var fmap := Find(table, key).value;
      0 < |fmap| < 0x1_0000_0000 && IndexInto(fmap, key.count)
  {
    if Matches(table[0], key) {
      assert WellFormed(table[0].fmap, kinds[0], table[0].key.count);
    } else {
      FoundIsUsable(table[1..], kinds[1..], key);
    }
  }

  // ----- a path on which every toss was assumed to come up 1

  ghost predicate Ones(values: seq<int>, n: int) {
    forall k :: 0 <= k < n && k < |values| ==> values[k] == 1
  }

  lemma {:induction false} AllTossed(f: Server, i: nat, n: nat, at: nat)
    requires 0 < n <= 0x1_0000_0000 && Honest(f) && i <= n
    ensures var d := DrawPure(f, i, n, false, Upto(i), at);
      d.fmap.Some? && Ones(d.values, n - i) ==> d.fmap.value == Upto(n)
    decreases n - i
  {
    var d := DrawPure(f, i, n, false, Upto(i), at);
    if i < n && d.fmap.Some? && Ones(d.values, n - i) {
      var a := f(Bool, at);
      assert a.value == d.values[0] == 1;
      assert Upto(i) + [i] == Upto(i + 1);
      AllTossed(f, i + 1, n, at + a.used);
      var rest := DrawPure(f, i + 1, n, false, Upto(i + 1), at + a.used);
      assert forall k :: 0 <= k < |rest.values| ==> rest.values[k] == d.values[k + 1];
    }
  }

  /** On a path of symbolic execution, where the tosses are assumed to come up 1, an
      unweighted configuration allows everything. */
  lemma SymbolicIsIdentity(f: Server, kind: Kind, n: nat, at: nat)
    requires 0 < n <= 0x1_0000_0000 && Honest(f) && !kind.Prob?
    ensures var d := Draw(f, kind, n, at);
      d.fmap.Some? && Ones(d.values, if kind.Mixed? then 1 else n) ==> d.fmap.value == Upto(n)
  {
    var d := Draw(f, kind, n, at);
    if kind.Pure? {
      assert Upto(0) == [];
      AllTossed(f, 0, n, at);
    } else if d.fmap.Some? {
      var a := f(Bool, at);
      assert a.value == d.values[0];
      PureIsWellFormed(f, 0, n, a.value == 1, [], at + a.used, kind);
    }
  }

  class SwarmTable {
    const tape: InputTape
    var configs: Table            // DeepFuzzy_SwarmConfigs, up to its index
    ghost var kinds: seq<Kind>    // what each was first asked as

    ghost predicate Valid()
      reads this, tape, tape.input
    {
      tape.Valid() && Usable(configs, kinds)
    }

    constructor (tape: InputTape)
      requires tape.Valid()
      ensures Valid() && this.tape == tape && configs == []
    {
      this.tape := tape;
      configs, kinds := [], [];
    }

    /** The last step: at least one choice has to be allowed. */
    method Conclude(n: nat, fmap: array<nat>, fcount: nat, values: seq<int>, log: seq<Event>) returns (d: Drawn)
      requires tape.Valid() && 0 < n <= 0x1_0000_0000 && fcount <= fmap.Length && n <= fmap.Length
      modifies tape`index, tape`drawn, tape.input
      ensures tape.Valid() && d.at == tape.index
      ensures d == Append(values, log, DrawFinish(Programs.Serve(tape.tape), n, old(fmap[..fcount]), old(tape.index)))
    {
      ghost var f, at := Programs.Serve(tape.tape), tape.index;
      if fcount != 0 {
        return Drawn(Some(fmap[..fcount]), values + [], log + [], tape.index);
      }
      TapeIsHonest(tape.tape);
      var reply := tape.Serve(InRange(Choice(n)));
      assert f(InRange(Choice(n)), at) == reply;
      if reply.InputExceeded? {
        return Drawn(None, values + [], log + [], tape.index);
      }
      d := Drawn(Some([reply.value]), values + [reply.value], log + reply.log, tape.index);
    }

    /** `count` times the same choice. */
    static method Fill(fmap: array<nat>, start: nat, choice: nat, count: nat)
      requires start + count <= fmap.Length
      modifies fmap
      ensures fmap[..start + count] == old(fmap[..start]) + Repeat(choice, count)
    {
      for j := 0 to count
        invariant fmap[..start + j] == old(fmap[..start]) + Repeat(choice, j)
      {
        fmap[start + j] := choice;
      }
    }

    /** One choice, as often as a number drawn for it says. */
    method Weigh(i: nat, n: nat, fmap: array<nat>, fcount: nat, values: seq<int>, log: seq<Event>, ghost goal: Drawn,
                 ghost chosen: seq<nat>)
      returns (reply: Reply, next: nat, ghost more: seq<nat>)
      requires tape.Valid() && fmap as object != tape.input && fcount + MAX_PROB_RATIO <= fmap.Length && i < n
      requires fmap[..fcount] == chosen
      requires Weighed(goal, Programs.Serve(tape.tape), i, n, chosen, tape.index, values, log)
      modifies tape`index, tape`drawn, tape.input, fmap
      ensures tape.Valid() && fcount <= next <= fcount + MAX_PROB_RATIO && fmap[..next] == more
      ensures reply.InputExceeded? ==> goal == Drawn(None, values, log, tape.index)
      ensures reply.Reply? ==>
        Weighed(goal, Programs.Serve(tape.tape), i + 1, n, more, tape.index,
               values + [reply.value], log + reply.log)
    {
      ghost var f, at := Programs.Serve(tape.tape), tape.index;
      next, more := fcount, chosen;
      reply := DrawWeight();
      WeighOne(goal, f, i, n, chosen, at, reply, values, log);
      if reply.Reply? {
        Fill(fmap, fcount, i, reply.value);
        next := fcount + reply.value;
        more := chosen + Repeat(i, reply.value);
      }
    }

    method DrawWeight() returns (reply: Reply)
      requires tape.Valid()
      modifies tape`index, tape`drawn, tape.input
      ensures tape.Valid() && reply == Programs.Serve(tape.tape)(Weight(), old(tape.index))
      ensures tape.index == old(tape.index) + if reply.Reply? then reply.used else 0
      ensures reply.Reply? ==> 0 <= reply.value <= MAX_PROB_RATIO
    {
      ghost var at := tape.index;
      TapeIsHonest(tape.tape);
      reply := tape.Serve(Weight());
      assert Programs.Serve(tape.tape)(Weight(), at) == reply;
      assert reply.Reply? ==> Within(reply.value, MAX_PROB_RATIO + 1);
    }

    /** The weighted branch of DeepFuzzy_NewSwarmConfig.  The array is as long as
        the allocation. */
    method ProbConfig(n: nat) returns (d: Drawn)
      requires tape.Valid() && 0 < n <= 0x1_0000_0000
      modifies tape`index, tape`drawn, tape.input
      ensures tape.Valid() && d.at == tape.index
      ensures d == DrawProb(Programs.Serve(tape.tape), 0, n, [], old(tape.index))
    {
      WeighStart(Programs.Serve(tape.tape), n, tape.index);
      d := WeighAll(n, DrawProb(Programs.Serve(tape.tape), 0, n, [], tape.index));
    }

    method WeighAll(n: nat, ghost goal: Drawn) returns (d: Drawn)
      requires tape.Valid() && 0 < n <= 0x1_0000_0000
      requires Weighed(goal, Programs.Serve(tape.tape), 0, n, [], tape.index, [], [])
      modifies tape`index, tape`drawn, tape.input
      ensures tape.Valid() && d.at == tape.index && d == goal
    {
      ghost var f := Programs.Serve(tape.tape);
      var fmap, fcount := new nat[n * MAX_PROB_RATIO], 0;
      var values, log := [], [];
      ghost var chosen: seq<nat> := [];
      for i := 0 to n
        invariant tape.Valid() && 0 <= fcount <= MAX_PROB_RATIO * i && fmap[..fcount] == chosen
        invariant fmap.Length == MAX_PROB_RATIO * n
        invariant Weighed(goal, f, i, n, chosen, tape.index, values, log)
      {
        var reply;
        reply, fcount, chosen := Weigh(i, n, fmap, fcount, values, log, goal, chosen);
        if reply.InputExceeded? {
          return Drawn(None, values, log, tape.index);
        }
        values, log := values + [reply.value], log + reply.log;
      }
      WeighEnd(goal, f, n, chosen, tape.index, values, log);
      d := Conclude(n, fmap, fcount, values, log);
    }

    /** The other branch: each choice is kept by the toss of a bit, or all of them. */
    method PureConfig(n: nat, full: bool) returns (d: Drawn)
      requires tape.Valid() && 0 < n <= 0x1_0000_0000
      modifies tape`index, tape`drawn, tape.input
      ensures tape.Valid() && d.at == tape.index
      ensures d == DrawPure(Programs.Serve(tape.tape), 0, n, full, [], old(tape.index))
    {
      TossStart(Programs.Serve(tape.tape), n, full, tape.index);
      d := TossAll(n, full, DrawPure(Programs.Serve(tape.tape), 0, n, full, [], tape.index));
    }

    method TossAll(n: nat, full: bool, ghost goal: Drawn) returns (d: Drawn)
      requires tape.Valid() && 0 < n <= 0x1_0000_0000
      requires Tossed(goal, Programs.Serve(tape.tape), 0, n, full, [], tape.index, [], [])
      modifies tape`index, tape`drawn, tape.input
      ensures tape.Valid() && d.at == tape.index && d == goal
    {
      ghost var f := Programs.Serve(tape.tape);
      var fmap, fcount := new nat[n], 0;
      var values, log := [], [];
      ghost var chosen: seq<nat> := [];
      for i := 0 to n
        invariant tape.Valid() && 0 <= fcount <= i && fmap[..fcount] == chosen
        invariant Tossed(goal, f, i, n, full, chosen, tape.index, values, log)
      {
        if full {
          KeepOne(goal, f, i, n, chosen, tape.index, values, log);
          Keep(i, fmap, fcount);
          fcount, chosen := fcount + 1, chosen + [i];
        } else {
          var reply;
          reply, fcount, chosen := Toss(i, n, fmap, fcount, values, log, goal, chosen);
          if reply.InputExceeded? {
            return Drawn(None, values, log, tape.index);
          }
          values, log := values + [reply.value], log + reply.log;
        }
      }
      TossEnd(goal, f, n, full, chosen, tape.index, values, log);
      d := Conclude(n, fmap, fcount, values, log);
    }

    method Keep(i: nat, fmap: array<nat>, fcount: nat)
      requires fcount < fmap.Length
      modifies fmap
      ensures fmap[..fcount + 1] == old(fmap[..fcount]) + [i]
    {
      fmap[fcount] := i;
    }

    /** One choice, if the toss of a bit says so. */
    method Toss(i: nat, n: nat, fmap: array<nat>, fcount: nat, values: seq<int>, log: seq<Event>, ghost goal: Drawn,
                ghost chosen: seq<nat>)
      returns (reply: Reply, next: nat, ghost more: seq<nat>)
      requires tape.Valid() && fmap as object != tape.input && fcount < fmap.Length && i < n
      requires fmap[..fcount] == chosen
      requires Tossed(goal, Programs.Serve(tape.tape), i, n, false, chosen, tape.index, values, log)
      modifies tape`index, tape`drawn, tape.input, fmap
      ensures tape.Valid() && fcount <= next <= fcount + 1 && fmap[..next] == more
      ensures reply.InputExceeded? ==> goal == Drawn(None, values, log, tape.index)
      ensures reply.Reply? ==>
        Tossed(goal, Programs.Serve(tape.tape), i + 1, n, false, more, tape.index,
               values + [reply.value], log + reply.log)
    {
      ghost var f, at := Programs.Serve(tape.tape), tape.index;
      next, more := fcount, chosen;
      reply := tape.Serve(Bool);
      assert f(Bool, at) == reply;
      TossOne(goal, f, i, n, chosen, at, reply, values, log);
      if reply.Reply? && reply.value == 1 {
        fmap[fcount] := i;
        next := fcount + 1;
        more := chosen + [i];
      }
    }

    /** DeepFuzzy_NewSwarmConfig. */
    method NewSwarmConfig(n: nat, kind: Kind) returns (d: Drawn)
      requires tape.Valid() && 0 < n < 0x1_0000_0000
      modifies tape`index, tape`drawn, tape.input
      ensures tape.Valid() && d.at == tape.index
      ensures d == Draw(Programs.Serve(tape.tape), kind, n, old(tape.index))
      ensures d.fmap.Some? ==> WellFormed(d.fmap.value, kind, n) && |d.fmap.value| < 0x1_0000_0000
    {
      ghost var f, at := Programs.Serve(tape.tape), tape.index;
      WeighingCosts(tape.tape, 0, n, [], at);
      TapeIsHonest(tape.tape);
      DrawIsWellFormed(f, kind, n, at);
      match kind
      case Prob => d := ProbConfig(n);
      case Pure => d := PureConfig(n, false);
      case Mixed =>
        var reply := tape.Serve(Bool);
        assert f(Bool, at) == reply;
        if reply.InputExceeded? {
          return Drawn(None, [], [], tape.index);
        }
        d := PureConfig(n, reply.value == 1);
        d := Cons(reply.value, reply.log, d);
    }

    /** DeepFuzzy_GetSwarmConfig: the stored configuration, or a new one that is
        stored.  No map means the run is abandoned. */
    method GetSwarmConfig(key: Key, kind: Kind) returns (d: Drawn)
      requires Valid() && 0 < key.count < 0x1_0000_0000
      modifies this, tape`index, tape`drawn, tape.input
      ensures Valid() && d.at == tape.index
      ensures d == Fetch(Programs.Serve(tape.tape), old(configs), key, kind, old(tape.index))
      ensures configs == Remembered(old(configs), key, d.fmap)
      ensures Fetched(tape.tape, old(configs), key, kind, old(tape.index), d, configs)
      ensures d.fmap.Some? ==> 0 < |d.fmap.value| < 0x1_0000_0000 && IndexInto(d.fmap.value, key.count)
      ensures old(kinds) <= kinds
    {
      ghost var before, at := configs, tape.index;
      d := LookUp(key, kind);
      FetchExactly(tape.tape, before, key, kind, at);
    }

    /** The loop over the entries, and what follows it. */
    method LookUp(key: Key, kind: Kind) returns (d: Drawn)
      requires Valid() && 0 < key.count < 0x1_0000_0000
      modifies this, tape`index, tape`drawn, tape.input
      ensures Valid() && d.at == tape.index
      ensures d == Fetch(Programs.Serve(tape.tape), old(configs), key, kind, old(tape.index))
      ensures configs == Remembered(old(configs), key, d.fmap)
      ensures d.fmap.Some? ==> 0 < |d.fmap.value| < 0x1_0000_0000 && IndexInto(d.fmap.value, key.count)
      ensures old(kinds) <= kinds
    {
      if Find(configs, key).Some? {
        FoundIsUsable(configs, kinds, key);
      }
      for i := 0 to |configs|
        invariant Find(configs, key) == Find(configs[i..], key)
      {
        var sc := configs[i];
        if sc.key.line == key.line && sc.key.count == key.count && key.file <= sc.key.file {
          return Drawn(Some(sc.fmap), [], [], tape.index);
        }
      }
      if |configs| == MAX_CONFIGS {
        return Drawn(None, [], [], tape.index);
      }
      d := NewSwarmConfig(key.count, kind);
      if d.fmap.Some? {
        configs := configs + [Config(key, d.fmap.value)];
        kinds := kinds + [kind];
      }
    }

    /** Run a harness.  What happens is what the harness without configurations
        does on the tape, and the returned values say what the table becomes. */
    method Play(h: Harness, depth: nat) returns (r: Run)
      requires Valid() && Sensible(h)
      modifies this, tape`index, tape`drawn, tape.input
      ensures Valid() && r.index == tape.index
      ensures r == RunFrom(Plain(h, old(configs)), Programs.Serve(tape.tape), old(tape.index), depth)
      ensures configs == TableOf(h, old(configs), r.values)
      decreases h, 1
    {
      match h
      case Stop(exit) =>
        r := Run([], [], [], tape.index, exit);
      case Ask(_, _) =>
        r := PlayAsk(h, depth);
      case Configure(_, _, _) =>
        r := PlayConfigure(h, depth);
    }

    method PlayAsk(h: Harness, depth: nat) returns (r: Run)
      requires Valid() && Sensible(h) && h.Ask?
      modifies this, tape`index, tape`drawn, tape.input
      ensures Valid() && r.index == tape.index
      ensures r == RunFrom(Plain(h, old(configs)), Programs.Serve(tape.tape), old(tape.index), depth)
      ensures configs == TableOf(h, old(configs), r.values)
      decreases h, 0
    {
      ghost var f, at, table := Programs.Serve(tape.tape), tape.index, configs;
      if h.req.LeaveOneOf? && depth == 0 {
        return Run([], [], [], tape.index, Crashed);
      }
      var reply := tape.Serve(h.req);
      assert reply == f(h.req, at);
      if reply.InputExceeded? {
        return Run([], [], [], tape.index, Abandoned);
      }
      if reply.value in h.next {
        r := Play(h.next[reply.value], Depth(h.req, depth));
      } else {
        r := Run([], [], [], tape.index, Crashed);
      }
      AskRuns(h, f, table, at, depth, reply, r);
      r := Prepend(reply.value, reply.log, Printed(h.req), r);
    }

    method PlayConfigure(h: Harness, depth: nat) returns (r: Run)
      requires Valid() && Sensible(h) && h.Configure?
      modifies this, tape`index, tape`drawn, tape.input
      ensures Valid() && r.index == tape.index
      ensures r == RunFrom(Plain(h, old(configs)), Programs.Serve(tape.tape), old(tape.index), depth)
      ensures configs == TableOf(h, old(configs), r.values)
      decreases h, 0
    {
      ghost var f, at, table := Programs.Serve(tape.tape), tape.index, configs;
      var d := GetSwarmConfig(h.key, h.kind);
      if d.fmap.None? {
        r := Run([], [], [], tape.index, Abandoned);
      } else if d.fmap.value in h.choose {
        r := Play(h.choose[d.fmap.value], depth);
      } else {
        r := Run([], [], [], tape.index, Crashed);
      }
      TapeIsHonest(tape.tape);
      FetchRuns(h, f, table, at, depth);
      TableAfterFetch(h, f, table, at, r.values);
      r := Then(d, r);
    }

    /** A fuzzing run and the file it saves. */
    method Record(h: Harness) returns (r: Run, file: seq<byte>)
      requires Valid() && Sensible(h)
      modifies this, tape, tape.input
      ensures Valid() && configs == TableOf(h, [], r.values)
      ensures r == Execute(Plain(h, []), tape.tape) && r.index <= |tape.tape| && file == tape.tape[..r.index]
      ensures forall j :: 0 <= j < |tape.tape| ==> tape.tape[j] == tape.rand(old(tape.drawn) + j)
    {
      tape.StartFuzzing();
      configs, kinds := [], [];
      r := Play(h, 0);
      file := tape.Save();
    }

    /** A run on a saved file. */
    method Replay(h: Harness, file: seq<byte>) returns (r: Run)
      requires Valid() && Sensible(h) && !tape.fuzzing
      modifies this, tape, tape.input
      ensures Valid() && configs == TableOf(h, [], r.values)
      ensures |file| <= INPUT_SIZE ==> r == Execute(Plain(h, []), file)
    {
      tape.Load(file);
      configs, kinds := [], [];
      r := Play(h, 0);
      if |file| <= INPUT_SIZE {
        SameBytesSameRun(Plain(h, []), tape.tape, file);
      }
    }
  }

  /** Record and replay, with configurations: the saved file gives the same run and
      leaves the same table, entry by entry. */
  method RecordAndReplay(h: Harness, recorder: SwarmTable, player: SwarmTable)
    returns (recorded: Run, file: seq<byte>, replayed: Run)
    requires recorder.Valid() && player.Valid() && !player.tape.fuzzing && Sensible(h)
    requires recorder != player && recorder.tape != player.tape && recorder.tape.input != player.tape.input
    modifies recorder, recorder.tape, recorder.tape.input, player, player.tape, player.tape.input
    ensures replayed == recorded && player.configs == recorder.configs && |file| == recorded.index
    ensures forall j :: 0 <= j < |file| ==> file[j] == recorder.tape.rand(old(recorder.tape.drawn) + j)
  {
    recorded, file := recorder.Record(h);
    ReplayRepeats(Plain(h, []), recorder.tape.tape);
    replayed := player.Replay(h, file);
  }
}
