/** The option lexer: the command line is joined into one buffer, which is cut into
    names and values in place. */
module Options {
  import opened Words
  import opened Programs
  import opened CStrings

  const MAX_NUM_OPTIONS: nat := 32
  const MAX_OPTION_LENGTH: nat := 1023

  const SPACE: byte := 32
  const DASH: byte := 45
  const EQUAL: byte := 61
  const FAKE_SPACE: byte := 160

  predicate IsOptionChar(c: byte) {
    97 <= c <= 122 || 65 <= c <= 90 || c == 95
  }

  predicate IsValueChar(c: byte) {
    32 < c <= 126 || c == FAKE_SPACE
  }

  // ----- joining the arguments

  function Faked(s: seq<byte>): (f: seq<byte>)
    ensures |f| == |s| && forall k :: 0 <= k < |s| ==> f[k] == if s[k] == SPACE then FAKE_SPACE else s[k]
  {
    seq<byte>(|s|, k requires 0 <= k < |s| => if s[k] == SPACE then FAKE_SPACE else s[k])
  }

  /** The arguments, separated by spaces; their own spaces are disguised. */
  function Joined(args: seq<seq<byte>>): seq<byte> {
    if args == [] then []
    else if |args| == 1 then Faked(args[0])
    else Joined(args[..|args| - 1]) + [SPACE] + Faked(args[|args| - 1])
  }

  // ----- one character at a time

  datatype Mode = InOption | InValue | SeenEqual | SeenSpace | SeenDash | Elsewhere

  /** An entry of the value array: the literal "", or a position in the buffer. */
  datatype Pointer = Nothing | Here(offset: nat)

  /** The buffer so far, and the arrays; or more options than they hold. */
  datatype Lexer =
    | Lexer(mode: Mode, out: seq<byte>, names: seq<nat>, values: seq<Pointer>)
    | TooMany
  {
    predicate Valid() {
      Lexer? ==> |names| == |values| <= MAX_NUM_OPTIONS && (mode.Elsewhere? || mode.SeenDash? || |names| > 0)
    }
  }

  function Put(l: Lexer, mode: Mode, c: byte): Lexer
    requires l.Lexer?
  {
    l.(mode := mode, out := l.out + [c])
  }

  function PointHere(l: Lexer): (m: Lexer)
    requires l.Valid() && l.Lexer? && |l.values| > 0
    ensures m.Valid() && m.Lexer?
  {
    l.(values := l.values[|l.values| - 1 := Here(|l.out|)])
  }

  function Lexed(l: Lexer, c: byte): (m: Lexer)
    requires l.Valid()
    ensures m.Valid() && (m.Lexer? ==> l.Lexer? && |m.out| == |l.out| + 1)
  {
    if l.TooMany? then l
    else match l.mode
      case InOption =>
        if IsOptionChar(c) then Put(l, InOption, c)
        else if c == EQUAL then Put(l, SeenEqual, NUL)
        else if c == SPACE || c == FAKE_SPACE then Put(l, SeenSpace, NUL)
        else Put(l, Elsewhere, NUL)
      case InValue =>
        if !IsValueChar(c) then Put(l, Elsewhere, NUL)
        else Put(l, InValue, if c == FAKE_SPACE then SPACE else c)
      case SeenSpace =>
        if c == SPACE || c == FAKE_SPACE then Put(l, SeenSpace, NUL)
        else if c == DASH then Put(l, SeenDash, c)
        else if IsValueChar(c) then Put(PointHere(l), InValue, c)
        else Put(l, Elsewhere, c)
      case SeenEqual =>
        if IsValueChar(c) then Put(PointHere(l), InValue, c) else Put(l, Elsewhere, c)
      case SeenDash =>
        if c != DASH then Put(l, Elsewhere, NUL)
        else if |l.names| >= MAX_NUM_OPTIONS then TooMany
        else Lexer(InOption, l.out + [NUL], l.names + [|l.out| + 1], l.values + [Nothing])
      case Elsewhere =>
        Put(l, if c == DASH then SeenDash else Elsewhere, NUL)
  }

  function LexedAll(l: Lexer, s: seq<byte>): (m: Lexer)
    requires l.Valid()
    ensures m.Valid() && (m.Lexer? ==> l.Lexer? && |m.out| == |l.out| + |s|)
  {
    if s == [] then l else Lexed(LexedAll(l, s[..|s| - 1]), s[|s| - 1])
  }

  function Start(): (l: Lexer)
    ensures l.Valid()
  {
    Lexer(Elsewhere, [], [], [])
  }

  function Pointed(text: seq<byte>, p: Pointer): seq<byte>
    requires p.Here? ==> p.offset <= |text|
  {
    match p
    case Nothing => []
    case Here(offset) => CString(text, offset)
  }

  datatype Setting = Setting(name: seq<byte>, value: seq<byte>)

  ghost predicate Inside(text: seq<byte>, names: seq<nat>, values: seq<Pointer>) {
    && |names| == |values|
    && (forall k :: 0 <= k < |names| ==> names[k] <= |text|)
    && (forall k :: 0 <= k < |values| && values[k].Here? ==> values[k].offset <= |text|)
  }

  /** The names and values as the program will read them. */
  ghost function SettingsOf(text: seq<byte>, names: seq<nat>, values: seq<Pointer>): seq<Setting>
    requires Inside(text, names, values)
  {
    seq(|names|, k requires 0 <= k < |names| => Setting(CString(text, names[k]), Pointed(text, values[k])))
  }

  function Lookup(settings: seq<Setting>, name: seq<byte>): Option<seq<byte>> {
    if settings == [] then None
    else if settings[0].name == name then Some(settings[0].value)
    else Lookup(settings[1..], name)
  }

  class OptionTable {
    const text: array<byte>         // DeepFuzzy_OptionString
    var length: nat                 // DeepFuzzy_OptionStringLength
    var names: seq<nat>             // DeepFuzzy_OptionNames, positions in the text
    var values: seq<Pointer>        // DeepFuzzy_OptionValues

    ghost predicate Sized()
      reads this
    {
      text.Length == MAX_OPTION_LENGTH + 1
    }

    constructor ()
      ensures Sized() && fresh(text) && names == [] && values == [] && length == 0
    {
      text := new byte[MAX_OPTION_LENGTH + 1](_ => NUL);
      length, names, values := 0, [], [];
    }

    /** CopyStringIntoOptions: what does not fit is cut off. */
    method CopyString(offset: nat, s: seq<byte>, replaceSpaces: bool) returns (end: nat)
      requires Sized() && offset <= MAX_OPTION_LENGTH
      modifies text
      ensures end <= MAX_OPTION_LENGTH
      ensures Kept(old(text[..offset]), if replaceSpaces then Faked(s) else s, text[..end])
    {
      ghost var all := if replaceSpaces then Faked(s) else s;
      var k := 0;
      while offset + k < MAX_OPTION_LENGTH && k < |s|
        invariant k <= |s| && offset + k <= MAX_OPTION_LENGTH
        invariant text[..offset + k] == old(text[..offset]) + all[..k]
      {
        var ch := s[k];
        if ch == SPACE && replaceSpaces {
          ch := FAKE_SPACE;
        }
        text[offset + k] := ch;
        k := k + 1;
        assert text[..offset + k] == old(text[..offset]) + all[..k];
      }
      end := offset + k;
    }

    /** The loop of DeepFuzzy_InitOptions that fills the buffer. */
    method JoinArguments(args: seq<seq<byte>>) returns (offset: nat)
      requires Sized()
      modifies text
      ensures offset == if |Joined(args)| <= MAX_OPTION_LENGTH then |Joined(args)| else MAX_OPTION_LENGTH
      ensures text[..offset] == Joined(args)[..offset]
    {
      offset := 0;
      var sep := [];
      for arg := 0 to |args|
        invariant offset <= MAX_OPTION_LENGTH && sep == if arg == 0 then [] else [SPACE]
        invariant Cut(Joined(args[..arg]), text[..offset])
      {
        ghost var before := text[..offset];
        offset := CopyString(offset, sep, false);
        ghost var between := text[..offset];
        offset := CopyString(offset, args[arg], true);
        JoinStep(args, arg, before, sep, between, text[..offset]);
        sep := [SPACE];
      }
      assert args[..|args|] == args;
    }

    /** One turn of the loop of ProcessOptionString. */
    method LexCharacter(i: nat, mode: Mode, ghost out: seq<byte>) returns (next: Mode, ok: bool)
      requires Sized() && i < text.Length && |out| == i && Lexer(mode, out, names, values).Valid()
      modifies text, `names, `values
      ensures text[..] == old(text[..])[i := text[i]]
      ensures var l := Lexed(Lexer(mode, out, old(names), old(values)), old(text[i]));
        ok == l.Lexer? && (ok ==> l == Lexer(next, out + [text[i]], names, values))
    {
      var ch := text[i];
      next, ok := mode, true;
      match mode
      case InOption =>
        if !IsOptionChar(ch) {
          text[i] := NUL;
          next := if ch == EQUAL then SeenEqual else if ch == SPACE || ch == FAKE_SPACE then SeenSpace else Elsewhere;
        }
      case InValue =>
        if !IsValueChar(ch) {
          next := Elsewhere;
          text[i] := NUL;
        } else if ch == FAKE_SPACE {
          text[i] := SPACE;
        }
      case SeenSpace =>
        if ch == SPACE || ch == FAKE_SPACE {
          text[i] := NUL;
        } else if ch == DASH {
          next := SeenDash;
        } else if IsValueChar(ch) {
          next := InValue;
          values := values[|values| - 1 := Here(i)];
        } else {
          next := Elsewhere;
        }
      case SeenEqual =>
        if IsValueChar(ch) {
          next := InValue;
          values := values[|values| - 1 := Here(i)];
        } else {
          next := Elsewhere;
        }
      case SeenDash =>
        if ch == DASH {
          next := InOption;
          if |names| >= MAX_NUM_OPTIONS {
            ok := false;
          } else {
            values := values + [Nothing];
            names := names + [i + 1];
          }
        } else {
          next := Elsewhere;
        }
        text[i] := NUL;
      case Elsewhere =>
        if ch == DASH {
          next := SeenDash;
        }
        text[i] := NUL;
    }

    /** ProcessOptionString. */
    method ProcessOptionString() returns (ok: bool)
      requires Sized() && length <= MAX_OPTION_LENGTH && names == [] && values == []
      modifies text, `names, `values
      ensures ok ==> text[length] == old(text[length])
      ensures var l := LexedAll(Start(), old(text[..length]));
        ok == l.Lexer? && (ok ==> (l.out, l.names, l.values) == (text[..length], names, values))
    {
      var mode := Elsewhere;
      ghost var input := text[..];
      ghost var line := text[..length];
      for i := 0 to length
        invariant LexedAll(Start(), line[..i]) == Lexer(mode, text[..i], names, values)
        invariant forall j :: i <= j < text.Length ==> text[j] == input[j]
      {
        ghost var out, before := text[..i], text[..];
        assert line[..i + 1][..i] == line[..i] && line[i] == text[i];
        mode, ok := LexCharacter(i, mode, out);
        if !ok {
          StaysTooMany(line, i + 1);
          return;
        }
        NextOut(before, text[..], i, text[i]);
        assert out + [text[i]] == text[..i + 1];
      }
      assert line[..length] == line;
      ok := true;
    }

    /** DeepFuzzy_InitOptions; without success, the run is abandoned. */
    method InitOptions(args: seq<seq<byte>>) returns (ok: bool)
      requires Sized() && names == [] && values == []
      modifies this, text
      ensures var l := LexedAll(Start(), Joined(args));
        && (ok <==> |Joined(args)| < MAX_OPTION_LENGTH && l.Lexer?)
        && (ok ==> length <= MAX_OPTION_LENGTH && text[length] == NUL &&
                   (l.out, l.names, l.values) == (text[..length], names, values))
    {
      var offset := JoinArguments(args);
      if MAX_OPTION_LENGTH <= offset {
        return false;
      }
      assert Joined(args)[..offset] == Joined(args);
      text[offset] := NUL;
      length := offset;
      assert text[..length] == Joined(args);
      ok := ProcessOptionString();
    }

    /** FindValueForName: the value of the first option of that name. */
    method FindValueForName(name: seq<byte>) returns (value: Option<seq<byte>>)
      requires Sized() && length <= MAX_OPTION_LENGTH && Inside(text[..length], names, values)
      ensures value == Lookup(SettingsOf(text[..length], names, values), name)
    {
      ghost var settings := SettingsOf(text[..length], names, values);
      for i := 0 to |names|
        invariant Lookup(settings, name) == Lookup(settings[i..], name)
      {
        assert settings[i..][0] == settings[i] && settings[i..][1..] == settings[i + 1..];
        if CString(text[..length], names[i]) == name {
          return Some(Pointed(text[..length], values[i]));
        }
      }
      value := None;
    }
  }

  /** `t` is what a bounded buffer keeps of `s`. */
  ghost predicate Cut(s: seq<byte>, t: seq<byte>) {
    && |t| == (if |s| <= MAX_OPTION_LENGTH then |s| else MAX_OPTION_LENGTH)
    && t == s[..|t|]
  }

  /** `u` is `t` and what still fits of `more`. */
  ghost predicate Kept(t: seq<byte>, more: seq<byte>, u: seq<byte>) {
    && |t| <= |u| == (if |t| + |more| <= MAX_OPTION_LENGTH then |t| + |more| else MAX_OPTION_LENGTH)
    && u == t + more[..|u| - |t|]
  }

  lemma CutOn(s: seq<byte>, t: seq<byte>, more: seq<byte>, u: seq<byte>)
    requires Cut(s, t) && Kept(t, more, u)
    ensures Cut(s + more, u)
  {
    if |s| <= MAX_OPTION_LENGTH {
      assert t == s;
      assert (s + more)[..|u|] == s + more[..|u| - |t|];
    } else {
      assert more[..0] == [];
      assert (s + more)[..|u|] == s[..|u|];
    }
  }

  lemma NextOut(before: seq<byte>, after: seq<byte>, i: nat, c: byte)
    requires i < |before| && after == before[i := c]
    ensures before[..i] + [c] == after[..i + 1]
    ensures forall j :: i < j < |before| ==> after[j] == before[j]
  {
  }

  lemma JoinStep(args: seq<seq<byte>>, arg: nat, before: seq<byte>, sep: seq<byte>, between: seq<byte>,
                 after: seq<byte>)
    requires arg < |args| && Cut(Joined(args[..arg]), before) && sep == if arg == 0 then [] else [SPACE]
    requires Kept(before, sep, between) && Kept(between, Faked(args[arg]), after)
    ensures Cut(Joined(args[..arg + 1]), after)
  {
    CutOn(Joined(args[..arg]), before, sep, between);
    CutOn(Joined(args[..arg]) + sep, between, Faked(args[arg]), after);
    JoinedOneMore(args, arg);
  }

  lemma JoinedOneMore(args: seq<seq<byte>>, arg: nat)
    requires arg < |args|
    ensures Joined(args[..arg + 1]) == Joined(args[..arg]) + (if arg == 0 then [] else [SPACE]) + Faked(args[arg])
  {
    assert args[..arg + 1][..arg] == args[..arg];
  }

  lemma {:induction false} StaysTooMany(input: seq<byte>, i: nat)
    requires i <= |input| && LexedAll(Start(), input[..i]).TooMany?
    ensures LexedAll(Start(), input).TooMany?
    decreases |input| - i
  {
    if i == |input| {
      assert input[..i] == input;
    } else {
      assert input[..i + 1][..i] == input[..i];
      StaysTooMany(input, i + 1);
    }
  }

  lemma {:induction false} AlwaysInside(s: seq<byte>)
    ensures var l := LexedAll(Start(), s); l.Lexer? ==> Inside(l.out, l.names, l.values)
  {
    if s != [] {
      AlwaysInside(s[..|s| - 1]);
    }
  }

  // ----- well-formed options

  /** What a user gives for one option, as one or two arguments. */
  datatype Argument =
    | Flag(name: seq<byte>)
    | Equals(name: seq<byte>, value: seq<byte>)
    | Separate(name: seq<byte>, value: seq<byte>)
  {
    function Argv(): seq<seq<byte>> {
      match this
      case Flag(name) => [[DASH, DASH] + name]
      case Equals(name, value) => [[DASH, DASH] + name + [EQUAL] + value]
      case Separate(name, value) => [[DASH, DASH] + name, value]
    }

    function Meant(): Setting {
      Setting(name, if Flag? then [] else value)
    }

    /** A name of option characters and a printable value. */
    ghost predicate Printable() {
      && (forall k :: 0 <= k < |name| ==> IsOptionChar(name[k]))
      && (!Flag? ==> forall k :: 0 <= k < |value| ==> SPACE <= value[k] <= 126)
    }

    /** No value starts with a space, nor a separate one with a dash. */
    ghost predicate WellFormed() {
      && Printable()
      && (!Flag? && value != [] ==> value[0] != SPACE && (Separate? ==> value[0] != DASH))
    }

    /** The option inside the joined line. */
    function Text(): seq<byte> {
      match this
      case Flag(name) => [DASH, DASH] + name
      case Equals(name, value) => [DASH, DASH] + name + [EQUAL] + Faked(value)
      case Separate(name, value) => [DASH, DASH] + name + [SPACE] + Faked(value)
    }
  }

  function ArgvAll(opts: seq<Argument>): seq<seq<byte>> {
    if opts == [] then [] else ArgvAll(opts[..|opts| - 1]) + opts[|opts| - 1].Argv()
  }

  function Line(opts: seq<Argument>): seq<byte> {
    if opts == [] then []
    else if |opts| == 1 then opts[0].Text()
    else Line(opts[..|opts| - 1]) + [SPACE] + opts[|opts| - 1].Text()
  }

  lemma NameIsPlain(name: seq<byte>)
    requires forall k :: 0 <= k < |name| ==> IsOptionChar(name[k])
    ensures Faked([DASH, DASH] + name) == [DASH, DASH] + name
  {
  }

  lemma TextIsJoined(o: Argument)
    requires o.Printable()
    ensures Joined(o.Argv()) == o.Text()
  {
    NameIsPlain(o.name);
    match o
    case Flag(name) =>
    case Equals(name, value) =>
      assert Faked([DASH, DASH] + name + [EQUAL] + value) == [DASH, DASH] + name + [EQUAL] + Faked(value);
    case Separate(name, value) =>
      assert o.Argv()[..1] == [[DASH, DASH] + name];
  }

  lemma {:induction false} JoinedConcat(a: seq<seq<byte>>, b: seq<seq<byte>>)
    requires a != [] && 1 <= |b| <= 2
    ensures Joined(a + b) == Joined(a) + [SPACE] + Joined(b)
  {
    if |b| == 1 {
      assert (a + b)[..|a|] == a;
    } else {
      assert (a + b)[..|a| + 1] == a + [b[0]] && (a + [b[0]])[..|a|] == a;
      assert b[..1] == [b[0]];
    }
  }

  ghost predicate AllPrintable(opts: seq<Argument>) {
    forall k :: 0 <= k < |opts| ==> opts[k].Printable()
  }

  ghost predicate AllWellFormed(opts: seq<Argument>) {
    forall k :: 0 <= k < |opts| ==> opts[k].WellFormed()
  }

  lemma {:induction false} LineIsJoined(opts: seq<Argument>)
    requires AllPrintable(opts)
    ensures Joined(ArgvAll(opts)) == Line(opts) && (opts != [] ==> ArgvAll(opts) != [])
  {
    if opts != [] {
      var front, last := opts[..|opts| - 1], opts[|opts| - 1];
      LineIsJoined(front);
      TextIsJoined(last);
      if front == [] {
        assert ArgvAll(opts) == last.Argv();
      } else {
        JoinedConcat(ArgvAll(front), last.Argv());
      }
    }
  }

  // ----- lexing them

  lemma {:induction false} LexedConcat(l: Lexer, s: seq<byte>, t: seq<byte>)
    requires l.Valid()
    ensures LexedAll(l, s + t) == LexedAll(LexedAll(l, s), t)
  {
    if t == [] {
      assert s + t == s;
    } else {
      var front := t[..|t| - 1];
      LexedConcat(l, s, front);
      assert (s + t)[..|s + t| - 1] == s + front;
    }
  }

  lemma Through(l: Lexer, s: seq<byte>, m: Lexer, t: seq<byte>, r: Lexer, st: seq<byte>)
    requires l.Valid() && m.Valid() && LexedAll(l, s) == m && LexedAll(m, t) == r && st == s + t
    ensures LexedAll(l, st) == r
  {
    LexedConcat(l, s, t);
  }

  lemma LexedOne(l: Lexer, c: byte)
    requires l.Valid()
    ensures LexedAll(l, [c]) == Lexed(l, c)
  {
    assert [c][..0] == [];
  }

  lemma {:induction false} NameRun(l: Lexer, name: seq<byte>)
    requires l.Valid() && l.Lexer? && l.mode.InOption?
    requires forall k :: 0 <= k < |name| ==> IsOptionChar(name[k])
    ensures LexedAll(l, name) == l.(out := l.out + name)
  {
    if name == [] {
      assert l.out + name == l.out;
    } else {
      var n := |name| - 1;
      NameRun(l, name[..n]);
      assert l.out + name[..n] + [name[n]] == l.out + name;
    }
  }

  lemma {:induction false} ValueRun(l: Lexer, value: seq<byte>)
    requires l.Valid() && l.Lexer? && l.mode.InValue?
    requires forall k :: 0 <= k < |value| ==> SPACE <= value[k] <= 126
    ensures LexedAll(l, Faked(value)) == l.(out := l.out + value)
  {
    if value == [] {
      assert l.out + value == l.out;
    } else {
      var n := |value| - 1;
      ValueRun(l, value[..n]);
      assert Faked(value)[..n] == Faked(value[..n]);
      assert l.out + value[..n] + [value[n]] == l.out + value;
    }
  }

  /** Where an option may start. */
  predicate Ready(l: Lexer) {
    l.Valid() && l.Lexer? && (l.mode.Elsewhere? || l.mode.SeenSpace?)
  }

  /** After the two dashes and the name. */
  function Named(l: Lexer, name: seq<byte>): (m: Lexer)
    requires Ready(l) && |l.names| < MAX_NUM_OPTIONS
    ensures m.Valid() && m.Lexer?
  {
    Lexer(InOption, l.out + [DashLeft(l), NUL] + name, l.names + [|l.out| + 2], l.values + [Nothing])
  }

  /** What the dashes, the name and the value leave in the buffer. */
  function Left(d: byte, o: Argument): seq<byte> {
    [d, NUL] + (o.name + (if o.Flag? then [] else [NUL] + o.value))
  }

  function DashLeft(l: Lexer): byte
    requires l.Lexer?
  {
    if l.mode.SeenSpace? then DASH else NUL
  }

  /** After the whole option. */
  function Taken(l: Lexer, o: Argument): (m: Lexer)
    requires Ready(l) && |l.names| < MAX_NUM_OPTIONS
    ensures m.Valid() && m.Lexer?
  {
    var (out, names) := (l.out + Left(DashLeft(l), o), l.names + [|l.out| + 2]);
    if o.Flag? then Lexer(InOption, out, names, l.values + [Nothing])
    else if o.value == [] then Lexer(if o.Equals? then SeenEqual else SeenSpace, out, names, l.values + [Nothing])
    else Lexer(InValue, out, names, l.values + [Here(|l.out| + |o.name| + 3)])
  }

  lemma Reassociate(a: seq<byte>, b: seq<byte>, c: seq<byte>, d: seq<byte>)
    ensures a + b + c + d == a + (b + (c + d))
  {
    assert c + d == [] + c + d;
  }

  lemma NamedRun(l: Lexer, name: seq<byte>)
    requires Ready(l) && |l.names| < MAX_NUM_OPTIONS && forall k :: 0 <= k < |name| ==> IsOptionChar(name[k])
    ensures LexedAll(l, [DASH, DASH] + name) == Named(l, name)
  {
    var l1 := Lexed(l, DASH);
    var l2 := Lexed(l1, DASH);
    assert [DASH, DASH][..1] == [DASH];
    LexedOne(l, DASH);
    LexedConcat(l, [DASH, DASH], name);
    assert LexedAll(l, [DASH, DASH]) == l2;
    assert l2.out == l.out + [DashLeft(l), NUL];
    NameRun(l2, name);
  }

  lemma {:induction false} TooManyStays(s: seq<byte>)
    ensures LexedAll(TooMany, s) == TooMany
  {
    if s != [] {
      TooManyStays(s[..|s| - 1]);
    }
  }

  /** The character between a name and a value. */
  lemma AfterName(m: Lexer, c: byte)
    requires m.Valid() && m.Lexer? && m.mode.InOption? && (c == EQUAL || c == SPACE)
    ensures LexedAll(m, [c]) == Put(m, if c == EQUAL then SeenEqual else SeenSpace, NUL)
  {
    LexedOne(m, c);
  }

  lemma FirstOfValue(r: Lexer, c: byte)
    requires r.Valid() && r.Lexer? && (r.mode.SeenEqual? || r.mode.SeenSpace?)
    requires SPACE < c <= 126 && (r.mode.SeenSpace? ==> c != DASH)
    ensures LexedAll(r, [c])
         == Lexer(InValue, r.out + [c], r.names, r.values[..|r.values| - 1] + [Here(|r.out|)])
  {
    LexedOne(r, c);
    var n := |r.values| - 1;
    assert r.values[n := Here(|r.out|)] == r.values[..n] + [Here(|r.out|)];
  }

  lemma ValueText(r: Lexer, v: seq<byte>)
    requires r.Valid() && r.Lexer? && (r.mode.SeenEqual? || r.mode.SeenSpace?) && v != []
    requires (forall k :: 0 <= k < |v| ==> SPACE <= v[k] <= 126) && v[0] != SPACE
    requires r.mode.SeenSpace? ==> v[0] != DASH
    ensures LexedAll(r, Faked(v))
         == Lexer(InValue, r.out + v, r.names, r.values[..|r.values| - 1] + [Here(|r.out|)])
  {
    var q := Lexer(InValue, r.out + [v[0]], r.names, r.values[..|r.values| - 1] + [Here(|r.out|)]);
    var rest := v[1..];
    FirstOfValue(r, v[0]);
    ValueRun(q, rest);
    assert q.out + rest == r.out + v;
    Through(r, [v[0]], q, Faked(rest), q.(out := r.out + v), Faked(v));
  }

  lemma ValuePart(m: Lexer, n: Lexer, o: Argument, c: byte)
    requires m.Valid() && m.Lexer? && m.mode.InOption?
    requires o.WellFormed() && !o.Flag? && c == if o.Equals? then EQUAL else SPACE
    requires n == if o.value == [] then Put(m, if o.Equals? then SeenEqual else SeenSpace, NUL)
                  else Lexer(InValue, m.out + [NUL] + o.value, m.names,
                             m.values[..|m.values| - 1] + [Here(|m.out| + 1)])
    ensures LexedAll(m, [c] + Faked(o.value)) == n
  {
    AfterName(m, c);
    if o.value == [] {
      assert [c] + Faked(o.value) == [c];
    } else {
      var r := Put(m, if c == EQUAL then SeenEqual else SeenSpace, NUL);
      ValueText(r, o.value);
      Through(m, [c], r, Faked(o.value), n, [c] + Faked(o.value));
    }
  }

  lemma FlagRun(l: Lexer, o: Argument)
    requires Ready(l) && o.WellFormed() && |l.names| < MAX_NUM_OPTIONS && o.Flag?
    ensures LexedAll(l, o.Text()) == Taken(l, o)
  {
    NamedRun(l, o.name);
    Assoc(l.out, [DashLeft(l), NUL], o.name);
    assert o.name + [] == o.name;
  }

  lemma TakenAfterName(l: Lexer, o: Argument)
    requires Ready(l) && |l.names| < MAX_NUM_OPTIONS && !o.Flag?
    ensures var m := Named(l, o.name);
      Taken(l, o) == if o.value == [] then Put(m, if o.Equals? then SeenEqual else SeenSpace, NUL)
                     else Lexer(InValue, m.out + [NUL] + o.value, m.names,
                                m.values[..|m.values| - 1] + [Here(|m.out| + 1)])
  {
    var m, d := Named(l, o.name), [DashLeft(l), NUL];
    Reassociate(l.out, d, o.name, [NUL] + o.value);
    assert m.values[..|m.values| - 1] == l.values;
    Assoc(m.out, [NUL], o.value);
    if o.value == [] {
      assert [NUL] + o.value == [NUL];
    }
  }

  lemma {:induction false} OptionRun(l: Lexer, o: Argument)
    requires Ready(l) && o.WellFormed() && |l.names| < MAX_NUM_OPTIONS
    ensures LexedAll(l, o.Text()) == Taken(l, o)
  {
    if o.Flag? {
      FlagRun(l, o);
    } else {
      var m, start, c := Named(l, o.name), [DASH, DASH] + o.name, if o.Equals? then EQUAL else SPACE;
      NamedRun(l, o.name);
      TakenAfterName(l, o);
      ValuePart(m, Taken(l, o), o, c);
      Assoc(start, [c], Faked(o.value));
      Through(l, start, m, [c] + Faked(o.value), Taken(l, o), o.Text());
    }
  }

  /** One option too many is noticed at its second dash. */
  lemma OptionTooMany(l: Lexer, o: Argument)
    requires Ready(l) && |l.names| == MAX_NUM_OPTIONS
    ensures LexedAll(l, o.Text()) == TooMany
  {
    var m, rest := Lexed(l, DASH), o.Text()[2..];
    LexedOne(l, DASH);
    LexedOne(m, DASH);
    Through(l, [DASH], m, [DASH], TooMany, [DASH] + [DASH]);
    TooManyStays(rest);
    assert o.Text()[..2] == [DASH, DASH];
    assert o.Text() == o.Text()[..2] + rest && [DASH, DASH] == [DASH] + [DASH];
    Through(l, [DASH] + [DASH], TooMany, rest, TooMany, o.Text());
  }

  // ----- the strings that the pointers denote

  ghost predicate AllClosed(l: Lexer) {
    && l.Lexer? && Inside(l.out, l.names, l.values)
    && (forall k :: 0 <= k < |l.names| ==> Closed(l.out, l.names[k]))
    && (forall k :: 0 <= k < |l.values| && l.values[k].Here? ==> Closed(l.out, l.values[k].offset))
  }

  ghost function Settings(l: Lexer): seq<Setting>
    requires l.Lexer? && Inside(l.out, l.names, l.values)
  {
    SettingsOf(l.out, l.names, l.values)
  }

  lemma SettingsStay(l: Lexer, out: seq<byte>, more: seq<byte>)
    requires AllClosed(l) && out == l.out + more
    ensures Inside(out, l.names, l.values) && SettingsOf(out, l.names, l.values) == Settings(l)
    ensures AllClosed(l.(out := out))
  {
    forall k | 0 <= k < |l.names|
      ensures CString(out, l.names[k]) == CString(l.out, l.names[k]) && Closed(out, l.names[k])
      ensures Pointed(out, l.values[k]) == Pointed(l.out, l.values[k])
      ensures l.values[k].Here? ==> Closed(out, l.values[k].offset)
    {
      ClosedStays(l.out, more, l.names[k]);
      if l.values[k].Here? {
        ClosedStays(l.out, more, l.values[k].offset);
      }
    }
  }

  lemma SettingsClose(l: Lexer)
    requires l.Lexer? && Inside(l.out, l.names, l.values)
    ensures AllClosed(l.(out := l.out + [NUL])) && Settings(l.(out := l.out + [NUL])) == Settings(l)
  {
    forall k | 0 <= k < |l.names|
      ensures CString(l.out + [NUL], l.names[k]) == CString(l.out, l.names[k]) && Closed(l.out + [NUL], l.names[k])
      ensures Pointed(l.out + [NUL], l.values[k]) == Pointed(l.out, l.values[k])
      ensures l.values[k].Here? ==> Closed(l.out + [NUL], l.values[k].offset)
    {
      NulCloses(l.out, l.names[k]);
      if l.values[k].Here? {
        NulCloses(l.out, l.values[k].offset);
      }
    }
  }

  /** Where an option may end. */
  ghost predicate Ended(m: Lexer) {
    && m.Valid() && m.Lexer? && Inside(m.out, m.names, m.values)
    && (m.mode.InOption? || m.mode.InValue? || m.mode.SeenSpace? || (m.mode.SeenEqual? && AllClosed(m)))
  }

  /** The space after an option closes its strings. */
  lemma SpaceEnds(m: Lexer)
    requires Ended(m)
    ensures var r := Lexed(m, SPACE); Ready(r) && AllClosed(r) && Settings(r) == Settings(m) && r.names == m.names
  {
    SettingsClose(m);
    if m.mode.SeenEqual? {
      SettingsStay(m, m.out + [SPACE], [SPACE]);
    }
  }

  lemma NameAt(a: seq<byte>, d: byte, name: seq<byte>, after: seq<byte>)
    requires NUL !in name && (after == [] || after[0] == NUL)
    ensures CString(a + ([d, NUL] + (name + after)), |a| + 2) == name
  {
    ShiftTwice(a, [d, NUL], name + after, 0);
    FirstString(name, after);
  }

  lemma {:induction false} ValueAt(a: seq<byte>, d: byte, name: seq<byte>, value: seq<byte>)
    requires NUL !in value
    ensures CString(a + ([d, NUL] + (name + ([NUL] + value))), |a| + |name| + 3) == value
  {
    ShiftTwice(a, [d, NUL], name + ([NUL] + value), |name| + 1);
    ShiftTwice(name, [NUL], value, 0);
    assert value + [] == value;
    FirstString(value, []);
  }

  /** The name and the value in what an option leaves. */
  lemma {:induction false} LeftReads(a: seq<byte>, d: byte, o: Argument)
    requires o.WellFormed()
    ensures CString(a + Left(d, o), |a| + 2) == o.name
    ensures !o.Flag? ==> CString(a + Left(d, o), |a| + |o.name| + 3) == o.value
  {
    if o.Flag? {
      NameAt(a, d, o.name, []);
    } else {
      NameAt(a, d, o.name, [NUL] + o.value);
      ValueAt(a, d, o.name, o.value);
    }
  }

  lemma SettingsGrow(l: Lexer, m: Lexer, more: seq<byte>, name: nat, value: Pointer, s: Setting)
    requires AllClosed(l) && m.Lexer? && m.out == l.out + more
    requires m.names == l.names + [name] && m.values == l.values + [value]
    requires name <= |m.out| && CString(m.out, name) == s.name
    requires (value.Here? ==> value.offset <= |m.out|) && Pointed(m.out, value) == s.value
    ensures Inside(m.out, m.names, m.values) && Settings(m) == Settings(l) + [s]
    ensures Closed(m.out, name) && value == Nothing ==> AllClosed(m)
  {
    SettingsStay(l, m.out, more);
    assert forall k :: 0 <= k < |l.names| ==> Settings(m)[k] == SettingsOf(m.out, l.names, l.values)[k];
  }

  lemma TakenReads(l: Lexer, o: Argument)
    requires Ready(l) && AllClosed(l) && o.WellFormed() && |l.names| < MAX_NUM_OPTIONS
    ensures Ended(Taken(l, o)) && Settings(Taken(l, o)) == Settings(l) + [o.Meant()]
  {
    var m := Taken(l, o);
    LeftReads(l.out, DashLeft(l), o);
    SettingsGrow(l, m, Left(DashLeft(l), o), |l.out| + 2, m.values[|l.values|], o.Meant());
  }

  ghost function Meanings(opts: seq<Argument>): seq<Setting> {
    seq(|opts|, k requires 0 <= k < |opts| => opts[k].Meant())
  }

  /** The lexer has read these options. */
  ghost predicate HasRead(m: Lexer, opts: seq<Argument>) {
    && m.Valid() && m.Lexer? && Inside(m.out, m.names, m.values)
    && Settings(m) == Meanings(opts) && |m.names| == |opts|
  }

  lemma OneMoreRead(l: Lexer, front: seq<Argument>, last: Argument)
    requires HasRead(l, front) && Ready(l) && AllClosed(l) && last.WellFormed() && |front| < MAX_NUM_OPTIONS
    ensures var m := LexedAll(l, last.Text()); HasRead(m, front + [last]) && Ended(m)
  {
    OptionRun(l, last);
    TakenReads(l, last);
    assert Meanings(front + [last]) == Meanings(front) + [last.Meant()];
  }

  lemma AfterSpace(m: Lexer, opts: seq<Argument>)
    requires HasRead(m, opts) && Ended(m)
    ensures var r := LexedAll(m, [SPACE]); HasRead(r, opts) && Ready(r) && AllClosed(r)
  {
    LexedOne(m, SPACE);
    SpaceEnds(m);
  }

  ghost predicate LineRead(m: Lexer, opts: seq<Argument>) {
    if |opts| > MAX_NUM_OPTIONS then m == TooMany else HasRead(m, opts) && (opts != [] ==> Ended(m))
  }

  /** Lexing a line of well-formed options. */
  lemma {:induction false} LineRun(l: Lexer, opts: seq<Argument>, line: seq<byte>)
    requires AllWellFormed(opts) && HasRead(l, []) && Ready(l) && AllClosed(l) && line == Line(opts)
    ensures LineRead(LexedAll(l, line), opts)
    decreases |opts|, 0
  {
    if opts == [] {
      NoLine(l, opts, line);
    } else {
      var n := |opts| - 1;
      LineParts(opts, opts[..n], opts[n]);
      LineRunOn(l, opts, opts[..n], opts[n], line);
    }
  }

  lemma LineParts(opts: seq<Argument>, front: seq<Argument>, last: Argument)
    requires opts != [] && AllWellFormed(opts) && front == opts[..|opts| - 1] && last == opts[|opts| - 1]
    ensures AllWellFormed(front) && last.WellFormed() && opts == front + [last]
    ensures Line(opts) == if front == [] then last.Text() else Line(front) + [SPACE] + last.Text()
  {
  }

  lemma NoLine(l: Lexer, opts: seq<Argument>, line: seq<byte>)
    requires opts == [] && line == [] && HasRead(l, [])
    ensures LineRead(LexedAll(l, line), opts)
  {
  }

  lemma {:induction false} LineRunOn(l: Lexer, opts: seq<Argument>, front: seq<Argument>, last: Argument,
                                     line: seq<byte>)
    requires AllWellFormed(front) && last.WellFormed() && HasRead(l, []) && Ready(l) && AllClosed(l)
    requires opts == front + [last] && line == if front == [] then last.Text() else Line(front) + [SPACE] + last.Text()
    ensures LineRead(LexedAll(l, line), opts)
    decreases |front|, 1
  {
    if front == [] {
      OneMoreRead(l, [], last);
      assert [] + [last] == opts;
    } else {
      LineRun(l, front, Line(front));
      LineGrows(l, Line(front), last, LexedAll(l, Line(front)), front);
    }
  }

  lemma LineGrows(l: Lexer, line: seq<byte>, last: Argument, m: Lexer, front: seq<Argument>)
    requires l.Valid() && LexedAll(l, line) == m && last.WellFormed() && LineRead(m, front) && front != []
    ensures LineRead(LexedAll(l, line + [SPACE] + last.Text()), front + [last])
  {
    var s := LexedAll(m, [SPACE]);
    Through(l, line, m, [SPACE], s, line + [SPACE]);
    Through(l, line + [SPACE], s, last.Text(), LexedAll(s, last.Text()), line + [SPACE] + last.Text());
    if m.TooMany? {
      TooManyStays([SPACE]);
      TooManyStays(last.Text());
    } else {
      AfterSpace(m, front);
      if |front| == MAX_NUM_OPTIONS {
        OptionTooMany(s, last);
      } else {
        OneMoreRead(s, front, last);
      }
    }
  }

  // ----- a value that starts badly is not read back

  /** Entry `k` will not become a value that starts with `first`: it is empty or
      starts otherwise, and can no longer change, or can change only so. */
  ghost predicate Astray(l: Lexer, k: nat, first: byte) {
    && l.Valid() && l.Lexer? && k < |l.names|
    && (if l.mode.SeenSpace? && |l.names| == k + 1 then
          l.values[k] == Nothing && (first == SPACE || first == DASH)
        else
          && (|l.names| == k + 1 ==> l.mode.InValue? || l.mode.Elsewhere? || l.mode.SeenDash?)
          && (l.values[k].Here? ==> l.values[k].offset < |l.out| && l.out[l.values[k].offset] != first))
  }

  lemma AstrayStep(l: Lexer, k: nat, first: byte, c: byte)
    requires Astray(l, k, first) && Lexed(l, c).Lexer?
    ensures Astray(Lexed(l, c), k, first)
  {
  }

  lemma {:induction false} AstrayOn(l: Lexer, k: nat, first: byte, s: seq<byte>)
    requires Astray(l, k, first) && LexedAll(l, s).Lexer?
    ensures Astray(LexedAll(l, s), k, first)
  {
    if s != [] {
      var m, c := LexedAll(l, s[..|s| - 1]), s[|s| - 1];
      AstrayOn(l, k, first, s[..|s| - 1]);
      AstrayStep(m, k, first, c);
    }
  }

  lemma {:induction false} AstrayStart(l: Lexer, o: Argument)
    requires Ready(l) && |l.names| < MAX_NUM_OPTIONS && o.Printable() && !o.WellFormed()
    requires LexedAll(l, o.Text()).Lexer?
    ensures Astray(LexedAll(l, o.Text()), |l.names|, o.value[0])
  {
    var m, start, c := Named(l, o.name), [DASH, DASH] + o.name, if o.Equals? then EQUAL else SPACE;
    var r, k, v := Put(m, if o.Equals? then SeenEqual else SeenSpace, NUL), |l.names|, Faked(o.value);
    NamedRun(l, o.name);
    AfterName(m, c);
    Through(l, start, m, [c], r, start + [c]);
    if o.Equals? {
      var q := Lexed(r, FAKE_SPACE);
      LexedOne(r, FAKE_SPACE);
      Through(l, start + [c], r, [FAKE_SPACE], q, start + [c] + [FAKE_SPACE]);
      assert v == [FAKE_SPACE] + v[1..];
      Assoc(start + [c], [FAKE_SPACE], v[1..]);
      LexedConcat(l, start + [c] + [FAKE_SPACE], v[1..]);
      AstrayOn(q, k, o.value[0], v[1..]);
    } else {
      LexedConcat(l, start + [c], v);
      AstrayOn(r, k, o.value[0], v);
    }
  }

  /** The joined line up to an option, and what follows it. */
  function UpTo(opts: seq<Argument>, k: nat): seq<byte>
    requires k < |opts|
  {
    if k == 0 then opts[0].Text() else Line(opts[..k]) + [SPACE] + opts[k].Text()
  }

  lemma {:induction false} LineContinues(opts: seq<Argument>, k: nat)
    requires k < |opts|
    ensures UpTo(opts, k) <= Line(opts)
    decreases |opts|
  {
    if k < |opts| - 1 {
      var front := opts[..|opts| - 1];
      LineContinues(front, k);
      assert front[..k] == opts[..k];
    }
  }

  lemma BadValueIsLost(opts: seq<Argument>, k: nat, l: Lexer)
    requires AllPrintable(opts) && k < |opts| && AllWellFormed(opts[..k]) && !opts[k].WellFormed()
    requires HasRead(l, []) && Ready(l) && AllClosed(l)
    ensures var m := LexedAll(l, Line(opts));
      m.Lexer? ==> Astray(m, k, opts[k].value[0])
  {
    if LexedAll(l, Line(opts)).Lexer? {
      LineContinues(opts, k);
      var rest := Line(opts)[|UpTo(opts, k)|..];
      LostFrom(opts, k, l, UpTo(opts, k), rest, Line(opts));
    }
  }

  lemma LostFrom(opts: seq<Argument>, k: nat, l: Lexer, start: seq<byte>, rest: seq<byte>, line: seq<byte>)
    requires AllPrintable(opts) && k < |opts| && AllWellFormed(opts[..k]) && !opts[k].WellFormed()
    requires HasRead(l, []) && Ready(l) && AllClosed(l)
    requires start == UpTo(opts, k) && line == start + rest && LexedAll(l, line).Lexer?
    ensures Astray(LexedAll(l, line), k, opts[k].value[0])
  {
    var m := LexedAll(l, start);
    Through(l, start, m, rest, LexedAll(m, rest), line);
    BadSoFar(opts, k, l);
    AstrayOn(m, k, opts[k].value[0], rest);
  }

  lemma BadSoFar(opts: seq<Argument>, k: nat, l: Lexer)
    requires AllPrintable(opts) && k < |opts| && AllWellFormed(opts[..k]) && !opts[k].WellFormed()
    requires HasRead(l, []) && Ready(l) && AllClosed(l) && LexedAll(l, UpTo(opts, k)).Lexer?
    ensures Astray(LexedAll(l, UpTo(opts, k)), k, opts[k].value[0])
  {
    var o, front := opts[k], opts[..k];
    if k > 0 {
      var line, m := Line(front), LexedAll(l, Line(front));
      var r := LexedAll(m, [SPACE]);
      LineRun(l, front, line);
      Through(l, line, m, [SPACE], r, line + [SPACE]);
      Through(l, line + [SPACE], r, o.Text(), LexedAll(r, o.Text()), UpTo(opts, k));
      BadAfter(m, front, o);
    } else {
      BadNow(l, [], o);
    }
  }

  lemma BadNow(l: Lexer, front: seq<Argument>, o: Argument)
    requires HasRead(l, front) && Ready(l) && o.Printable() && !o.WellFormed() && LexedAll(l, o.Text()).Lexer?
    ensures Astray(LexedAll(l, o.Text()), |front|, o.value[0])
  {
    if |front| == MAX_NUM_OPTIONS {
      OptionTooMany(l, o);
    } else {
      AstrayStart(l, o);
    }
  }

  lemma BadAfter(m: Lexer, front: seq<Argument>, o: Argument)
    requires m.Valid() && LineRead(m, front) && front != [] && o.Printable() && !o.WellFormed()
    requires LexedAll(LexedAll(m, [SPACE]), o.Text()).Lexer?
    ensures Astray(LexedAll(LexedAll(m, [SPACE]), o.Text()), |front|, o.value[0])
  {
    if m.TooMany? {
      TooManyStays([SPACE]);
      TooManyStays(o.Text());
    } else {
      AfterSpace(m, front);
      BadNow(LexedAll(m, [SPACE]), front, o);
    }
  }

  /** What is read back is what was given, exactly when the options are well-formed. */
  lemma ReadBackExactly(opts: seq<Argument>, l: Lexer)
    requires AllPrintable(opts) && HasRead(l, []) && Ready(l) && AllClosed(l)
    ensures var m := LexedAll(l, Line(opts));
      m.Lexer? && Inside(m.out, m.names, m.values) ==> (Settings(m) == Meanings(opts) <==> AllWellFormed(opts))
    ensures AllWellFormed(opts) ==> (LexedAll(l, Line(opts)).Lexer? <==> |opts| <= MAX_NUM_OPTIONS)
  {
    var m := LexedAll(l, Line(opts));
    if AllWellFormed(opts) {
      LineRun(l, opts, Line(opts));
    } else {
      var k := FirstBad(opts);
      BadValueIsLost(opts, k, l);
      if m.Lexer? && Inside(m.out, m.names, m.values) {
        AstrayIsLost(m, k, opts[k].value);
        assert k < |Settings(m)| && Settings(m)[k].value != opts[k].value == Meanings(opts)[k].value;
      }
    }
  }

  lemma AstrayIsLost(m: Lexer, k: nat, s: seq<byte>)
    requires s != [] && s[0] != NUL && Astray(m, k, s[0]) && Inside(m.out, m.names, m.values)
    ensures Pointed(m.out, m.values[k]) != s
  {
  }

  lemma FirstBad(opts: seq<Argument>) returns (k: nat)
    requires !AllWellFormed(opts)
    ensures k < |opts| && AllWellFormed(opts[..k]) && !opts[k].WellFormed()
  {
    k := 0;
    while opts[k].WellFormed()
      invariant k < |opts| && forall j :: 0 <= j < k ==> opts[j].WellFormed()
      decreases |opts| - k
    {
      k := k + 1;
    }
  }

  /** Options survive the trip through the buffer: of printable ones, the names and
      values read back are the ones that were given, in order, exactly when no value
      starts with a space nor a separate one with a dash.  Of such well-formed ones,
      initialisation fails exactly when there are more than 32, or the joined line
      has 1023 characters or more. */
  method RoundTrip(opts: seq<Argument>) returns (ok: bool, table: OptionTable)
    requires AllPrintable(opts)
    ensures AllWellFormed(opts) ==> (ok <==> |opts| <= MAX_NUM_OPTIONS && |Line(opts)| < MAX_OPTION_LENGTH)
    ensures ok ==> table.length <= table.text.Length
    ensures ok ==> Inside(table.text[..table.length], table.names, table.values)
    ensures ok ==>
      (SettingsOf(table.text[..table.length], table.names, table.values) == Meanings(opts) <==> AllWellFormed(opts))
  {
    table := new OptionTable();
    ok := table.InitOptions(ArgvAll(opts));
    LineIsJoined(opts);
    ReadBackExactly(opts, Start());
    AlwaysInside(Line(opts));
  }
}
