/** What options any joined line holds: a grammar of lines, told by their characters,
    and the proof that the lexer reads by it. */
module OptionLines {
  import opened Words
  import opened Programs
  import opened CStrings
  import opened Options

  predicate IsLetter(c: byte) {
    'a' <= c as char <= 'z' || 'A' <= c as char <= 'Z' || c as char == '_'
  }

  predicate IsVisible(c: byte) {
    '!' as int <= c <= '~' as int || IsFaked(c)
  }

  /** A space with the top bit set, which disguises one inside an argument. */
  predicate IsFaked(c: byte) {
    c == ' ' as int + 128
  }

  predicate IsSpace(c: byte) {
    c == ' ' as int || IsFaked(c)
  }

  predicate IsDash(c: byte) {
    c == '-' as int
  }

  function Unfaked(s: seq<byte>): seq<byte> {
    seq<byte>(|s|, k requires 0 <= k < |s| => if IsFaked(s[k]) then ' ' as int else s[k])
  }

  /** How many characters of a name start the text. */
  function NameLength(s: seq<byte>): (n: nat)
    ensures n <= |s|
  {
    if s == [] || !IsLetter(s[0]) then 0 else 1 + NameLength(s[1..])
  }

  function ValueLength(s: seq<byte>): (n: nat)
    ensures n <= |s|
  {
    if s == [] || !IsVisible(s[0]) then 0 else 1 + ValueLength(s[1..])
  }

  function SpaceLength(s: seq<byte>): (n: nat)
    ensures n <= |s|
  {
    if s == [] || !IsSpace(s[0]) then 0 else 1 + SpaceLength(s[1..])
  }

  /** The options of a text that starts outside of any: each follows two dashes. */
  function OptionsIn(s: seq<byte>): seq<Setting>
    decreases |s|, 2
  {
    if |s| < 2 then []
    else if IsDash(s[0]) && IsDash(s[1]) then OptionIn(s[2..])
    else OptionsIn(s[1..])
  }

  /** A name, and its value after an equals sign or after spaces if no dash comes
      there.  Any other character that ends the name is skipped. */
  function OptionIn(s: seq<byte>): (options: seq<Setting>)
    ensures options != []
    decreases |s|, 1
  {
    var n := NameLength(s);
    var name := s[..n];
    if n == |s| then [Setting(name, [])]
    else
      var rest := s[n + 1..];
      if s[n] == '=' as int then ValueIn(name, rest)
      else if IsSpace(s[n]) then
        var t := rest[SpaceLength(rest)..];
        if t != [] && IsDash(t[0]) then [Setting(name, [])] + OptionsIn(t) else ValueIn(name, t)
      else [Setting(name, [])] + OptionsIn(rest)
  }

  /** The value that starts here, if the first character is visible: the visible ones,
      of which all but the first regain their spaces.  What ends it is skipped. */
  function ValueIn(name: seq<byte>, s: seq<byte>): (options: seq<Setting>)
    ensures options != []
    decreases |s|, 3
  {
    if s != [] && IsVisible(s[0]) then
      var n := 1 + ValueLength(s[1..]);
      [Setting(name, [s[0]] + Unfaked(s[1..n]))] + (if n < |s| then OptionsIn(s[n + 1..]) else [])
    else [Setting(name, [])] + OptionsIn(s)
  }

  // ----- the lexer reads by the grammar

  /** The options read so far, all their strings ended. */
  ghost predicate ClosedWith(l: Lexer, base: seq<Setting>) {
    l.Valid() && AllClosed(l) && Settings(l) == base
  }

  /** At the end of the line: these options, or too many. */
  ghost predicate Reads(m: Lexer, all: seq<Setting>) {
    if |all| > 32 then m.TooMany? else m.Lexer? && Inside(m.out, m.names, m.values) && Settings(m) == all
  }

  lemma FirstCharacter(l: Lexer, s: seq<byte>)
    requires l.Valid() && s != []
    ensures LexedAll(l, s) == LexedAll(Lexed(l, s[0]), s[1..])
  {
    LexedConcat(l, [s[0]], s[1..]);
    LexedOne(l, s[0]);
    assert s == [s[0]] + s[1..];
  }

  lemma FirstPart(l: Lexer, s: seq<byte>, n: nat)
    requires l.Valid() && n <= |s|
    ensures LexedAll(l, s) == LexedAll(LexedAll(l, s[..n]), s[n..])
  {
    assert s == s[..n] + s[n..];
    Through(l, s[..n], LexedAll(l, s[..n]), s[n..], LexedAll(LexedAll(l, s[..n]), s[n..]), s);
  }

  lemma Skips(l: Lexer, mode: Mode, c: byte, base: seq<Setting>)
    requires ClosedWith(l, base) && (mode.Elsewhere? || mode.SeenDash? || mode.SeenSpace?) && Put(l, mode, c).Valid()
    ensures ClosedWith(Put(l, mode, c), base)
  {
    SettingsStay(l, l.out + [c], [c]);
  }

  lemma EndOfLine(l: Lexer, s: seq<byte>, base: seq<Setting>)
    requires ClosedWith(l, base) && s == []
    ensures Reads(LexedAll(l, s), base + [])
  {
    assert base + [] == base;
  }

  /** Outside of options. */
  lemma {:induction false} ElsewhereReads(l: Lexer, s: seq<byte>, base: seq<Setting>)
    requires ClosedWith(l, base) && l.mode.Elsewhere?
    ensures Reads(LexedAll(l, s), base + OptionsIn(s))
    decreases |s|, 0
  {
    if s == [] {
      EndOfLine(l, s, base);
    } else {
      var m := Lexed(l, s[0]);
      FirstCharacter(l, s);
      Skips(l, m.mode, NUL, base);
      if IsDash(s[0]) {
        assert s == [DASH] + s[1..];
        DashReads(m, s[1..], base);
      } else {
        ElsewhereReads(m, s[1..], base);
      }
    }
  }

  /** After one dash. */
  lemma {:induction false} DashReads(l: Lexer, t: seq<byte>, base: seq<Setting>)
    requires ClosedWith(l, base) && l.mode.SeenDash?
    ensures Reads(LexedAll(l, t), base + OptionsIn([DASH] + t))
    decreases |t|, 1
  {
    var s := [DASH] + t;
    assert s[1..] == t;
    if t == [] {
      EndOfLine(l, t, base);
    } else {
      var m := Lexed(l, t[0]);
      FirstCharacter(l, t);
      assert s[2..] == t[1..];
      if !IsDash(t[0]) {
        Skips(l, Elsewhere, NUL, base);
        ElsewhereReads(m, t[1..], base);
        assert OptionsIn(t) == OptionsIn(t[1..]);
      } else if |l.names| >= 32 {
        TooManyStays(t[1..]);
      } else {
        OptionReads(l, m, t[1..], base);
      }
    }
  }

  lemma {:induction false} NameIsLetters(s: seq<byte>)
    ensures var n := NameLength(s);
      (forall k :: 0 <= k < n ==> IsOptionChar(s[k])) && (n < |s| ==> !IsOptionChar(s[n]))
  {
    if s != [] {
      if IsLetter(s[0]) {
        NameIsLetters(s[1..]);
        assert forall k :: 0 < k < |s| ==> s[k] == s[1..][k - 1];
      }
    }
  }

  /** After the second dash, met in state `l`. */
  lemma {:induction false} OptionReads(l: Lexer, m: Lexer, s: seq<byte>, base: seq<Setting>)
    requires ClosedWith(l, base) && |l.names| < 32
    requires m == Lexer(InOption, l.out + [NUL], l.names + [|l.out| + 1], l.values + [Nothing])
    ensures Reads(LexedAll(m, s), base + OptionIn(s))
    decreases |s|, 1
  {
    var n := NameLength(s);
    var name := s[..n];
    var named := m.(out := m.out + name);
    var now := base + [Setting(name, [])];
    NameIsLetters(s);
    FirstPart(m, s, n);
    NameRun(m, name);
    NameStands(l, named, name, base);
    if n < |s| {
      var c, rest := s[n], s[n + 1..];
      var r := Lexed(named, c);
      FirstCharacter(named, s[n..]);
      assert s[n..][1..] == rest;
      SettingsClose(named);
      if c == EQUAL {
        assert r == Put(named, SeenEqual, NUL);
        ValueReads(r, rest, name, base);
      } else if IsSpace(c) {
        assert r == Put(named, SeenSpace, NUL);
        SpaceReads(r, rest, name, base);
      } else {
        assert r == Put(named, Elsewhere, NUL);
        ElsewhereReads(r, rest, now);
        Associate(base, Setting(name, []), OptionsIn(rest));
      }
    } else {
      assert s[n..] == [];
    }
  }

  lemma Associate(base: seq<Setting>, s: Setting, rest: seq<Setting>)
    ensures base + [s] + rest == base + ([s] + rest)
  {
  }

  lemma NameStands(l: Lexer, named: Lexer, name: seq<byte>, base: seq<Setting>)
    requires ClosedWith(l, base) && |l.names| < 32 && forall k :: 0 <= k < |name| ==> IsOptionChar(name[k])
    requires named == Lexer(InOption, l.out + [NUL] + name, l.names + [|l.out| + 1], l.values + [Nothing])
    ensures named.Valid() && Inside(named.out, named.names, named.values)
    ensures Settings(named) == base + [Setting(name, [])]
  {
    var at := |l.out| + 1;
    assert named.out[at..at + |name|] == name;
    CStringIs(named.out, at, name);
    assert named.out == l.out + ([NUL] + name);
    SettingsGrow(l, named, [NUL] + name, at, Nothing, Setting(name, []));
  }

  /** An option whose name is read, its value still empty. */
  ghost predicate Waiting(r: Lexer, name: seq<byte>, base: seq<Setting>) {
    && ClosedWith(r, base + [Setting(name, [])]) && r.values[|r.values| - 1] == Nothing
  }

  /** After the spaces that follow a name. */
  lemma {:induction false} SpaceReads(r: Lexer, s: seq<byte>, name: seq<byte>, base: seq<Setting>)
    requires r.Lexer? && r.mode.SeenSpace? && Waiting(r, name, base)
    ensures var t := s[SpaceLength(s)..];
      Reads(LexedAll(r, s), base + (if t != [] && IsDash(t[0]) then [Setting(name, [])] + OptionsIn(t)
                                    else ValueIn(name, t)))
    decreases |s|, 2
  {
    var now := base + [Setting(name, [])];
    if s != [] && IsSpace(s[0]) {
      var m := Lexed(r, s[0]);
      FirstCharacter(r, s);
      Skips(r, SeenSpace, NUL, now);
      SpaceReads(m, s[1..], name, base);
      assert s[SpaceLength(s)..] == s[1..][SpaceLength(s[1..])..];
    } else {
      assert s[0..] == s;
      if s != [] && IsDash(s[0]) {
        FirstCharacter(r, s);
        Skips(r, SeenDash, DASH, now);
        assert s == [DASH] + s[1..];
        DashReads(Lexed(r, s[0]), s[1..], now);
        Associate(base, Setting(name, []), OptionsIn(s));
      } else {
        ValueReads(r, s, name, base);
      }
    }
  }

  /** Where a value may start. */
  lemma {:induction false} ValueReads(r: Lexer, s: seq<byte>, name: seq<byte>, base: seq<Setting>)
    requires r.Lexer? && Waiting(r, name, base)
    requires r.mode.SeenEqual? || (r.mode.SeenSpace? && (s == [] || (!IsSpace(s[0]) && !IsDash(s[0]))))
    ensures Reads(LexedAll(r, s), base + ValueIn(name, s))
    decreases |s|, 1
  {
    var now := base + [Setting(name, [])];
    if s == [] {
      EndOfLine(r, s, now);
      Associate(base, Setting(name, []), []);
    } else if IsVisible(s[0]) {
      FirstCharacter(r, s);
      StartedReads(r, Lexed(r, s[0]), s, name, base);
    } else {
      var m := Lexed(r, s[0]);
      FirstCharacter(r, s);
      Skips(r, Elsewhere, s[0], now);
      ElsewhereReads(m, s[1..], now);
      assert OptionsIn(s) == OptionsIn(s[1..]);
      Associate(base, Setting(name, []), OptionsIn(s));
    }
  }

  lemma {:induction false} ValueIsVisible(q: Lexer, s: seq<byte>)
    requires q.Valid() && q.Lexer? && q.mode.InValue?
    ensures LexedAll(q, s[..ValueLength(s)]) == q.(out := q.out + Unfaked(s[..ValueLength(s)]))
    ensures ValueLength(s) < |s| ==> !IsVisible(s[ValueLength(s)])
    ensures NUL !in Unfaked(s[..ValueLength(s)])
    decreases |s|
  {
    var n := ValueLength(s);
    if n == 0 {
      assert q.out + Unfaked(s[..0]) == q.out;
    } else {
      var m := Lexed(q, s[0]);
      FirstCharacter(q, s[..n]);
      ValueIsVisible(m, s[1..]);
      assert s[..n][1..] == s[1..][..n - 1];
      assert Unfaked(s[..n]) == [if IsFaked(s[0]) then SPACE else s[0]] + Unfaked(s[1..][..n - 1]);
      assert q.out + Unfaked(s[..n]) == m.out + Unfaked(s[1..][..n - 1]);
    }
  }

  /** After the first character of a value, met in state `r`. */
  lemma {:induction false} StartedReads(r: Lexer, q: Lexer, s: seq<byte>, name: seq<byte>, base: seq<Setting>)
    requires r.Lexer? && Waiting(r, name, base) && s != [] && IsVisible(s[0])
    requires q == Lexer(InValue, r.out + [s[0]], r.names, r.values[|r.values| - 1 := Here(|r.out|)])
    ensures Reads(LexedAll(q, s[1..]), base + ValueIn(name, s))
    decreases |s|, 0
  {
    var t := s[1..];
    var n := ValueLength(t);
    var value := [s[0]] + Unfaked(t[..n]);
    var valued := q.(out := r.out + value);
    FirstPart(q, t, n);
    ValueIsVisible(q, t);
    assert q.out + Unfaked(t[..n]) == r.out + value;
    ValueStands(r, valued, name, value, base);
    assert s[1..n + 1] == t[..n];
    if n < |t| {
      var e := Lexed(valued, t[n]);
      FirstCharacter(valued, t[n..]);
      assert t[n..][1..] == s[n + 2..];
      assert e == Put(valued, Elsewhere, NUL);
      SettingsClose(valued);
      ElsewhereReads(e, s[n + 2..], base + [Setting(name, value)]);
      Associate(base, Setting(name, value), OptionsIn(s[n + 2..]));
    } else {
      assert t[n..] == [];
      Associate(base, Setting(name, value), []);
      assert base + [Setting(name, value)] + [] == base + [Setting(name, value)];
    }
  }

  lemma ValueStands(r: Lexer, valued: Lexer, name: seq<byte>, value: seq<byte>, base: seq<Setting>)
    requires r.Lexer? && Waiting(r, name, base) && NUL !in value
    requires valued == Lexer(InValue, r.out + value, r.names, r.values[|r.values| - 1 := Here(|r.out|)])
    ensures valued.Valid() && Inside(valued.out, valued.names, valued.values)
    ensures Settings(valued) == base + [Setting(name, value)]
  {
    var before, at := WithoutLast(r, name, base);
    ClosedStays(r.out, value, at);
    assert valued.out[|r.out|..|r.out| + |value|] == value;
    CStringIs(valued.out, |r.out|, value);
    assert valued.values == before.values + [Here(|r.out|)];
    SettingsGrow(before, valued, value, at, Here(|r.out|), Setting(name, value));
  }

  /** The options before the one that waits for its value, and where its name is. */
  lemma WithoutLast(r: Lexer, name: seq<byte>, base: seq<Setting>) returns (before: Lexer, at: nat)
    requires r.Lexer? && Waiting(r, name, base)
    ensures before.Lexer? && before.out == r.out && AllClosed(before) && Settings(before) == base
    ensures r.names == before.names + [at] && r.values == before.values + [Nothing]
    ensures Closed(r.out, at) && CString(r.out, at) == name
  {
    var k := |base|;
    assert |Settings(r)| == k + 1 == |r.names|;
    at := r.names[k];
    before := r.(names := r.names[..k], values := r.values[..k]);
    assert Settings(r)[k] == Setting(name, []) && Settings(r)[..k] == base;
    assert Settings(before) == Settings(r)[..k];
  }

  /** The lexer finds in every line the options that the grammar does, and gives up
      exactly when there are more than 32. */
  lemma LineReads(line: seq<byte>)
    ensures Reads(LexedAll(Start(), line), OptionsIn(line))
  {
    ElsewhereReads(Start(), line, []);
    assert [] + OptionsIn(line) == OptionsIn(line);
  }

  /** Whatever the arguments, initialisation leaves the options of the joined line.  It
      fails exactly when the line has 1023 characters or more, or more than 32 options. */
  method ReadArguments(args: seq<seq<byte>>) returns (ok: bool, table: OptionTable)
    ensures ok <==> |Joined(args)| < 1023 && |OptionsIn(Joined(args))| <= 32
    ensures ok ==> table.length <= table.text.Length
    ensures ok ==> Inside(table.text[..table.length], table.names, table.values)
    ensures ok ==> SettingsOf(table.text[..table.length], table.names, table.values) == OptionsIn(Joined(args))
  {
    table := new OptionTable();
    ok := table.InitOptions(args);
    LineReads(Joined(args));
  }

  /** The value looked up is that of the first option of the name. */
  lemma {:induction false} LookupExactly(settings: seq<Setting>, name: seq<byte>)
    ensures Lookup(settings, name).None? <==> forall k :: 0 <= k < |settings| ==> settings[k].name != name
    ensures forall k :: 0 <= k < |settings| && settings[k].name == name
              && (forall j :: 0 <= j < k ==> settings[j].name != name)
              ==> Lookup(settings, name) == Some(settings[k].value)
  {
    if settings != [] && settings[0].name != name {
      LookupExactly(settings[1..], name);
      assert forall k :: 0 < k < |settings| ==> settings[k] == settings[1..][k - 1];
    }
  }
}
