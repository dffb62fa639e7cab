/** What the symbolic executor is asked for.  The engine and its solver are the set
    of assignments that satisfy the path condition: minimum, constraint and
    satisfiability are read off that set. */
module Symex {
  import opened Words
  import opened Programs
  import opened Search

  // ----- minimising the saved input

  ghost predicate Solvable(models: set<seq<byte>>, width: nat) {
    models != {} && forall m :: m in models ==> |m| == width
  }

  function Starting(models: set<seq<byte>>, bytes: seq<byte>): set<seq<byte>> {
    set m | m in models && bytes <= m
  }

  ghost predicate LexLess(a: seq<byte>, b: seq<byte>) {
    exists k: nat :: k < |a| && k < |b| && a[..k] == b[..k] && a[k] < b[k]
  }

  /** `bytes` starts a satisfying assignment, and no other prefix of its length that
      does comes before it. */
  ghost predicate Least(models: set<seq<byte>>, bytes: seq<byte>) {
    && Starting(models, bytes) != {}
    && forall m :: m in models ==> bytes <= m || LexLess(bytes, m)
  }

  /** One state of the symbolic executor, with its symbols DEEP_INPUT_i. */
  class Engine {
    const width: nat
    var models: set<seq<byte>>

    ghost predicate Valid()
      reads this
    {
      Solvable(models, width)
    }

    constructor (width: nat, models: set<seq<byte>>)
      requires Solvable(models, width)
      ensures Valid() && this.width == width && this.models == models
    {
      this.width, this.models := width, models;
    }

    /** The smallest value of a symbol, which is then constrained to it. */
    method ConcretizeMin(i: nat) returns (b: byte)
      requires Valid() && i < width
      modifies this`models
      ensures Valid()
      ensures forall m :: m in old(models) ==> b <= m[i]
      ensures models == set m | m in old(models) && m[i] == b
    {
      ghost var m0 :| m0 in models;
      b := 0;
      while !exists m :: m in models && m[i] == b
        invariant forall m :: m in models ==> b <= m[i]
        decreases m0[i] - b
      {
        b := b + 1;
      }
      ghost var found :| found in models && found[i] == b;
      models := set m | m in models && m[i] == b;
      assert found in models;
    }

    /** The part of `report` that makes the input bytes. */
    method Report(inputIndex: nat) returns (bytes: seq<byte>)
      requires Valid()
      modifies this`models
      ensures Valid() && |bytes| == if inputIndex > width then width else inputIndex
      ensures Least(old(models), bytes) && models == Starting(old(models), bytes)
    {
      var n := if inputIndex > width then width else inputIndex;
      bytes := [];
      assert models == Starting(models, []);
      for i := 0 to n
        invariant Valid() && |bytes| == i
        invariant Least(old(models), bytes) && models == Starting(old(models), bytes)
      {
        ghost var before := models;
        var b := ConcretizeMin(i);
        LeastStep(old(models), bytes, before, width, b);
        bytes := bytes + [b];
      }
    }
  }

  lemma LeastStep(models: set<seq<byte>>, bytes: seq<byte>, now: set<seq<byte>>, width: nat, b: byte)
    requires Solvable(models, width) && |bytes| < width && now == Starting(models, bytes) && Least(models, bytes)
    requires forall m :: m in now ==> b <= m[|bytes|]
    requires exists m :: m in now && m[|bytes|] == b
    ensures Starting(models, bytes + [b]) == set m | m in now && m[|bytes|] == b
    ensures Least(models, bytes + [b])
  {
    var i, more := |bytes|, bytes + [b];
    forall m | m in models
      ensures more <= m <==> bytes <= m && m[i] == b
      ensures more <= m || LexLess(more, m)
    {
      assert bytes <= m && m[i] == b ==> m[..i + 1] == more;
      if bytes <= m {
        assert more[..i] == bytes == m[..i];
      } else {
        var k: nat :| k < |bytes| && k < |m| && bytes[..k] == m[..k] && bytes[k] < m[k];
        assert more[..k] == m[..k];
      }
    }
    var m :| m in now && m[i] == b;
    assert m in Starting(models, more);
  }

  lemma LessThanPrefix(a: seq<byte>, b: seq<byte>, w: seq<byte>)
    requires LexLess(a, w) && b <= w && |a| == |b|
    ensures LexLess(a, b)
  {
    var k: nat :| k < |a| && k < |w| && a[..k] == w[..k] && a[k] < w[k];
    assert b[..k] == w[..k];
  }

  lemma LexAsymmetric(a: seq<byte>, b: seq<byte>)
    requires LexLess(a, b)
    ensures !LexLess(b, a)
  {
    var k: nat :| k < |a| && k < |b| && a[..k] == b[..k] && a[k] < b[k];
    assert forall i :: 0 <= i < k ==> a[i] == a[..k][i] == b[i];
    forall j: nat | j < |a| && j < |b| && b[j] < a[j]
      ensures b[..j] != a[..j]
    {
      assert a[..j][k] == a[k] && b[..j][k] == b[k];
    }
  }

  /** Two engines that hold the same path condition save the same bytes. */
  lemma LeastIsUnique(models: set<seq<byte>>, a: seq<byte>, b: seq<byte>)
    requires Least(models, a) && Least(models, b) && |a| == |b|
    ensures a == b
  {
    var m :| m in Starting(models, a);
    var w :| w in Starting(models, b);
    if a != b {
      LessThanPrefix(a, b, w);
      LessThanPrefix(b, a, m);
      LexAsymmetric(a, b);
      assert false;
    }
  }

  /** The saved bytes replay the path: if every satisfying assignment consumes
      exactly the saved length, the saved test runs like one of them. */
  lemma SavedTestFollowsPath(p: Program, models: set<seq<byte>>, bytes: seq<byte>)
    requires Least(models, bytes)
    requires forall m :: m in models ==> Execute(p, m).index == |bytes|
    ensures exists m :: m in models && Execute(p, bytes) == Execute(p, m)
  {
    var m :| m in Starting(models, bytes);
    assert m in models && bytes == m[..|bytes|];
    SameBytesSameRun(p, m, bytes);
  }

  // ----- pumping values out of a symbol

  function Rank(values: set<int>, v: int): nat {
    |set u | u in values && u < v|
  }

  lemma RankOfFirst(values: set<int>, gone: set<int>, rest: set<int>, m: int)
    requires values == gone + rest && m in rest
    requires (forall u, v :: u in gone && v in rest ==> u < v) && (forall v :: v in rest ==> m <= v)
    ensures Rank(values, m) == |gone|
  {
    assert (set u | u in values && u < m) == gone;
  }

  lemma RankGrows(values: set<int>, u: int, v: int)
    requires u in values && u < v
    ensures Rank(values, u) < Rank(values, v)
  {
    var below, under := set w | w in values && w < u, set w | w in values && w < v;
    assert u in under && u !in below;
    Subset(below + {u}, under);
  }

  lemma Member<T>(a: set<T>) returns (x: T)
    requires a != {}
    ensures x in a
  {
    x :| x in a;
  }

  lemma {:induction false} Subset<T>(a: set<T>, b: set<T>)
    requires a <= b
    ensures |a| <= |b|
  {
    if a != {} {
      var x :| x in a;
      Subset(a - {x}, b - {x});
    }
  }

  /** The value that a pump of at most `max` values returns on the path of `val`. */
  ghost predicate Pumped(values: set<int>, val: int, max: nat, r: int) {
    r in values && Rank(values, r) == Smaller(Rank(values, val), max - 1)
  }

  /** The values of a path through a pump: the one returned, unless it is the last
      one to be asked for, which stands for all that are left. */
  function PumpPath(values: set<int>, val: int, max: nat): set<int> {
    set v | v in values && (if Rank(values, val) + 1 < max then v == val else Rank(values, v) + 1 >= max)
  }

  /** `Minimize` on a symbolic value. */
  method Minimize(values: set<int>) returns (m: int)
    requires values != {}
    ensures m in values && forall v :: v in values ==> m <= v
  {
    ghost var some := Member(values);
    m :| m in values;
    var rest := values - {m};
    while rest != {}
      invariant m in values && rest <= values && forall v :: v in values && v !in rest ==> m <= v
      decreases |rest|
    {
      some := Member(rest);
      var v :| v in rest;
      if v < m {
        m := v;
      }
      rest := rest - {v};
    }
  }

  /** Pump, on the path where the pumped value is `val`, one of the feasible ones.
      No result means the test is abandoned.  `path` is what is feasible after. */
  method Pump(values: set<int>, val: int, max: nat) returns (r: Option<int>, path: set<int>)
    requires val in values
    ensures r.None? <==> |values| > 1 && max == 0
    ensures |values| <= 1 ==> r == Some(val) && path == values
    ensures |values| > 1 && max > 0 ==>
      Pumped(values, val, max, r.value) && path == PumpPath(values, val, max)
  {
    if |values| <= 1 {
      return Some(val), values;
    }
    if max == 0 {
      return None, {};
    }
    path := values;
    ghost var gone := {};
    for i := 0 to max - 1
      invariant values == gone + path && val in path && |gone| == i
      invariant forall u, v :: u in gone && v in path ==> u < v
    {
      var minVal := Minimize(path);
      RankOfFirst(values, gone, path, minVal);
      if val == minVal {
        PathOfFound(values, val, max);
        return Some(minVal), {minVal};
      }
      path, gone := path - {minVal}, gone + {minVal};
    }
    var last := Minimize(path);
    RankOfFirst(values, gone, path, last);
    PathOfRest(values, gone, path, val, max);
    r := Some(last);
  }

  lemma PathOfFound(values: set<int>, val: int, max: nat)
    requires val in values && Rank(values, val) + 1 < max
    ensures PumpPath(values, val, max) == {val}
  {
  }

  lemma PathOfRest(values: set<int>, gone: set<int>, rest: set<int>, val: int, max: nat)
    requires values == gone + rest && val in rest && |gone| + 1 == max
    requires forall u, v :: u in gone && v in rest ==> u < v
    ensures PumpPath(values, val, max) == rest && Rank(values, val) >= |gone|
  {
    forall v | v in rest
      ensures Rank(values, v) >= |gone|
    {
      Subset(gone, set u | u in values && u < v);
    }
    forall v | v in gone
      ensures Rank(values, v) < |gone|
    {
      var below := set u | u in values && u < v;
      assert v !in below;
      Subset(below + {v}, gone);
    }
  }

  lemma RankIsInjective(values: set<int>, u: int, v: int)
    requires u in values && v in values && Rank(values, u) == Rank(values, v)
    ensures u == v
  {
    if u < v {
      RankGrows(values, u, v);
    } else if v < u {
      RankGrows(values, v, u);
    }
  }

  /** Over all paths together: the values returned are exactly the `max` smallest,
      each on one path, and the paths share out the feasible values. */
  lemma PumpReturnsTheSmallest(values: set<int>, max: nat)
    requires max > 0
    ensures forall r :: r in values && Rank(values, r) < max <==>
      exists val :: val in values && Pumped(values, val, max, r)
    ensures forall u, v, r, s ::
      u in values && v in values && Pumped(values, u, max, r) && Pumped(values, v, max, s) ==>
      (r == s <==> v in PumpPath(values, u, max))
  {
    forall r | r in values && Rank(values, r) < max
      ensures exists val :: val in values && Pumped(values, val, max, r)
    {
      assert Pumped(values, r, max, r);
    }
    forall u, v, r, s | u in values && v in values && Pumped(values, u, max, r) && Pumped(values, v, max, s)
      ensures r == s <==> v in PumpPath(values, u, max)
    {
      if r == s && Rank(values, u) + 1 < max {
        RankIsInjective(values, u, v);
      }
      if v in PumpPath(values, u, max) {
        RankIsInjective(values, r, s);
      }
    }
  }

  predicate IsIndex(v: int, n: nat) {
    0 <= v < n
  }

  function Below(n: nat): set<int> {
    set v | 0 <= v < n && IsIndex(v, n)
  }

  lemma BelowRank(n: nat, v: int)
    requires 0 <= v < n
    ensures Rank(Below(n), v) == v
  {
    assert (set u | u in Below(n) && u < v) == Below(v);
    BelowSize(v);
  }

  lemma {:induction false} BelowSize(n: nat)
    ensures |Below(n)| == n
  {
    if n > 0 {
      assert Below(n) == Below(n - 1) + {n - 1};
      BelowSize(n - 1);
    }
  }

  /** OneOf over `n` alternatives pumps its index up to `n` times: each path calls
      the alternative it stands for, and no other path does. */
  lemma OneOfExploresEachOnce(n: nat, val: int, r: int)
    requires 0 <= val < n && Pumped(Below(n), val, n, r)
    ensures r == val && PumpPath(Below(n), val, n) == {val}
  {
    BelowRank(n, val);
    BelowRank(n, r);
    forall v | v in Below(n)
      ensures Rank(Below(n), v) == v
    {
      BelowRank(n, v);
    }
  }

  // ----- the signed minimum through the unsigned one

  const HALF: nat := 0x8000_0000

  /** The argument that DeepFuzzy_MinInt hands to DeepFuzzy_MinUInt. */
  function Biased(v: int): (u: nat)
    requires IntType.Int.Holds(v)
    ensures u < 0x1_0000_0000
  {
    (IntType.Int.ToUnsigned(v) + HALF) % 0x1_0000_0000
  }

  /** What it makes of the answer. */
  function Unbiased(u: int): int
    requires 0 <= u < 0x1_0000_0000
  {
    IntType.Int.FromUnsigned((u - HALF) % 0x1_0000_0000)
  }

  lemma BiasKeepsOrder(v: int)
    requires IntType.Int.Holds(v)
    ensures Biased(v) == v + HALF && Unbiased(Biased(v)) == v
  {
  }

  ghost predicate AllInts(values: set<int>) {
    forall v :: v in values ==> IntType.Int.Holds(v)
  }

  /** DeepFuzzy_MinInt on a symbolic value: the true signed minimum. */
  method MinInt(values: set<int>) returns (m: int)
    requires values != {} && AllInts(values)
    ensures m in values && forall v :: v in values ==> m <= v
  {
    var biased := set v | v in values :: Biased(v);
    ghost var some := Member(values);
    assert Biased(some) in biased;
    var u := Minimize(biased);
    ghost var w :| w in values && Biased(w) == u;
    BiasKeepsOrder(w);
    m := Unbiased(u);
    forall v | v in values
      ensures m <= v
    {
      BiasKeepsOrder(v);
      assert Biased(v) in biased;
    }
  }
}
