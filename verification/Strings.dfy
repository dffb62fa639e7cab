/** Generated C strings, with and without a swarm configuration of the allowed
    characters. */
module Strings {
  import opened Words
  import opened Programs
  import opened Replies
  import opened Tape
  import opened Swarm
  import opened SwarmTables

  /** A drawn text (none: the tape ran out) and where the tape then stands. */
  datatype Text = Text(chars: Option<seq<byte>>, at: nat)

  /** How the next character is read: any but NUL, or one of an alphabet. */
  function Pick(alphabet: Option<seq<byte>>): Request
    requires alphabet.Some? ==> 0 < |alphabet.value| <= 0x1_0000_0000
  {
    if alphabet.None? then Byte(true) else InRange(Choice(|alphabet.value|))
  }

  function Letter(alphabet: Option<seq<byte>>, v: int): byte {
    if alphabet.Some? && 0 <= v < |alphabet.value| then alphabet.value[v]
    else if 0 <= v < 256 then v
    else 0
  }

  function Spell(f: Server, alphabet: Option<seq<byte>>, len: nat, at: nat): Text
    requires alphabet.Some? ==> 0 < |alphabet.value| <= 0x1_0000_0000
  {
    if len == 0 then Text(Some([]), at)
    else
      var t := Spell(f, alphabet, len - 1, at);
      if t.chars.None? then t
      else match f(Pick(alphabet), t.at)
        case InputExceeded => Text(None, t.at)
        case Reply(v, _, used) => Text(Some(t.chars.value + [Letter(alphabet, v)]), t.at + used)
  }

  /** A spelled text has exactly the asked length, and only allowed characters. */
  lemma {:induction false} SpelledIsAllowed(tape: seq<byte>, alphabet: Option<seq<byte>>, len: nat, at: nat)
    requires alphabet.Some? ==> 0 < |alphabet.value| <= 0x1_0000_0000
    ensures var t := Spell(Programs.Serve(tape), alphabet, len, at);
      t.chars.Some? ==>
        |t.chars.value| == len &&
        forall c :: c in t.chars.value ==> if alphabet.Some? then c in alphabet.value else c != 0
  {
    if len > 0 {
      SpelledIsAllowed(tape, alphabet, len - 1, at);
      TapeIsHonest(tape);
      var t := Spell(Programs.Serve(tape), alphabet, len - 1, at);
      if t.chars.Some? && alphabet.Some? {
        assert Programs.Serve(tape)(InRange(Choice(|alphabet.value|)), t.at)
            == Answer(InRange(Choice(|alphabet.value|)), tape, t.at);
      }
    }
  }

  /** The bytes that one character costs: none if there is no choice. */
  function LetterCost(alphabet: Option<seq<byte>>): nat {
    if alphabet.None? then 1 else if |alphabet.value| == 1 then 0 else 4
  }

  /** The character that the bytes from a position on stand for.  Without an alphabet a
      zero byte reads as 1; with one, the number of four bytes chooses, modulo its size. */
  function CharacterAt(tape: seq<byte>, alphabet: Option<seq<byte>>, at: nat): byte
    requires alphabet.Some? ==> 0 < |alphabet.value|
  {
    if alphabet.None? then (if At(tape, at) == 0 then 1 else At(tape, at))
    else if |alphabet.value| == 1 then alphabet.value[0]
    else alphabet.value[NumberAt(tape, at, 4) % |alphabet.value|]
  }

  lemma NumberBound(tape: seq<byte>, at: nat)
    ensures NumberAt(tape, at, 4) < 0x1_0000_0000
    ensures Decode(UInt, tape, at) == NumberAt(tape, at, 4)
  {
    WindowIsNumber(tape, at, 4);
    BigEndianFits(UInt, Window(tape, at, 4));
  }

  lemma ChosenByRemainder(n: nat, x: nat)
    requires 1 < n <= 0x1_0000_0000 && x < 0x1_0000_0000
    ensures Clamp(Choice(n), x).value == x % n
  {
    InRangeInBounds(Choice(n), x);
    if x < n {
      Remainder(x, 0, x, n);
    }
  }

  lemma LetterReply(f: Server, tape: seq<byte>, alphabet: Option<seq<byte>>, at: nat)
    requires (alphabet.Some? ==> 0 < |alphabet.value| <= 0x1_0000_0000) && f == Programs.Serve(tape)
    ensures var (a, cost) := (f(Pick(alphabet), at), LetterCost(alphabet));
      if cost > 0 && at + cost > 32768 then a.InputExceeded?
      else a.Reply? && a.used == cost && Letter(alphabet, a.value) == CharacterAt(tape, alphabet, at)
  {
    assert f(Pick(alphabet), at) == Answer(Pick(alphabet), tape, at);
    if alphabet.Some? && |alphabet.value| > 1 {
      NumberBound(tape, at);
      ChosenByRemainder(|alphabet.value|, Decode(UInt, tape, at));
    }
  }

  /** A text as it is read: `len` characters one after another, unless the input is used
      up before. */
  ghost predicate SpelledFrom(tape: seq<byte>, alphabet: Option<seq<byte>>, len: nat, at: nat, t: Text)
    requires alphabet.Some? ==> 0 < |alphabet.value|
  {
    var cost := LetterCost(alphabet);
    if cost * len > 0 && at + cost * len > 32768 then t.chars.None?
    else
      && t.chars.Some? && t.at == at + cost * len && |t.chars.value| == len
      && forall k :: 0 <= k < len ==> t.chars.value[k] == CharacterAt(tape, alphabet, at + cost * k)
  }

  lemma {:induction false} SpelledExactly(tape: seq<byte>, alphabet: Option<seq<byte>>, len: nat, at: nat)
    requires alphabet.Some? ==> 0 < |alphabet.value| <= 0x1_0000_0000
    ensures SpelledFrom(tape, alphabet, len, at, Spell(Programs.Serve(tape), alphabet, len, at))
  {
    if len > 0 {
      var f, cost := Programs.Serve(tape), LetterCost(alphabet);
      var t := Spell(f, alphabet, len - 1, at);
      SpelledExactly(tape, alphabet, len - 1, at);
      assert cost * len == cost * (len - 1) + cost;
      if t.chars.Some? {
        LetterReply(f, tape, alphabet, t.at);
        if f(Pick(alphabet), t.at).Reply? {
          OneMoreSpelled(tape, alphabet, len - 1, at, t);
        }
      }
    }
  }

  lemma OneMoreSpelled(tape: seq<byte>, alphabet: Option<seq<byte>>, n: nat, at: nat, t: Text)
    requires alphabet.Some? ==> 0 < |alphabet.value|
    requires SpelledFrom(tape, alphabet, n, at, t) && t.chars.Some?
    requires LetterCost(alphabet) > 0 ==> t.at + LetterCost(alphabet) <= 32768
    ensures SpelledFrom(tape, alphabet, n + 1, at,
                        Text(Some(t.chars.value + [CharacterAt(tape, alphabet, t.at)]), t.at + LetterCost(alphabet)))
  {
    assert LetterCost(alphabet) * (n + 1) == LetterCost(alphabet) * n + LetterCost(alphabet);
  }

  /** The characters a configuration leaves of an alphabet. */
  function Restrict(letters: seq<byte>, fmap: seq<nat>): (kept: seq<byte>)
    requires IndexInto(fmap, |letters|)
    ensures |kept| == |fmap| && forall i :: 0 <= i < |kept| ==> kept[i] == letters[fmap[i]]
    ensures forall c :: c in kept ==> c in letters
  {
    seq<byte>(|fmap|, i requires 0 <= i < |fmap| => letters[fmap[i]])
  }

  /** Without a set of allowed characters, a swarm string draws from all but NUL. */
  function Letters(allowed: Option<seq<byte>>): (letters: seq<byte>)
    ensures allowed.None? ==> |letters| == 255 && forall i :: 0 <= i < 255 ==> letters[i] == i + 1
    ensures allowed.None? ==> forall c: byte :: c in letters <==> c != 0
    ensures allowed.Some? ==> letters == allowed.value
  {
    if allowed.Some? then allowed.value
    else
      var all := seq<byte>(255, i requires 0 <= i < 255 => i + 1);
      AllButNul(all);
      all
  }

  lemma AllButNul(all: seq<byte>)
    requires |all| == 255 && forall i :: 0 <= i < 255 ==> all[i] == i + 1
    ensures forall c: byte :: c in all <==> c != 0
  {
    forall c: byte | c != 0
      ensures c in all
    {
      assert all[c - 1] == c;
    }
  }

  /** The loop that fills a string, character by character. */
  method Fill(tape: InputTape, str: array<byte>, len: nat, alphabet: Option<seq<byte>>) returns (ok: bool)
    requires tape.Valid() && str != tape.input && len < str.Length
    requires alphabet.Some? ==> 0 < |alphabet.value| <= 0x1_0000_0000
    modifies tape`index, tape`drawn, tape.input, str
    ensures tape.Valid()
    ensures var t := Spell(Programs.Serve(tape.tape), alphabet, len, old(tape.index));
      ok == t.chars.Some? && tape.index == t.at && (ok ==> str[..len] == t.chars.value)
  {
    ghost var f, at := Programs.Serve(tape.tape), tape.index;
    ghost var spelled: seq<byte> := [];
    for i := 0 to len
      invariant tape.Valid() && str[..i] == spelled
      invariant Spell(f, alphabet, i, at) == Text(Some(spelled), tape.index)
    {
      ghost var before := tape.index;
      var reply := tape.Serve(Pick(alphabet));
      SpellNext(f, alphabet, i, at, spelled, before, reply);
      if reply.InputExceeded? {
        CutShort(f, alphabet, i + 1, len, at);
        return false;
      }
      str[i] := Letter(alphabet, reply.value);
      spelled := spelled + [Letter(alphabet, reply.value)];
    }
    ok := true;
  }

  lemma SpellNext(f: Server, alphabet: Option<seq<byte>>, i: nat, at: nat, spelled: seq<byte>, now: nat, a: Reply)
    requires alphabet.Some? ==> 0 < |alphabet.value| <= 0x1_0000_0000
    requires Spell(f, alphabet, i, at) == Text(Some(spelled), now) && f(Pick(alphabet), now) == a
    ensures Spell(f, alphabet, i + 1, at)
         == if a.InputExceeded? then Text(None, now)
            else Text(Some(spelled + [Letter(alphabet, a.value)]), now + a.used)
  {
  }

  lemma {:induction false} CutShort(f: Server, alphabet: Option<seq<byte>>, i: nat, len: nat, at: nat)
    requires alphabet.Some? ==> 0 < |alphabet.value| <= 0x1_0000_0000
    requires i <= len && Spell(f, alphabet, i, at).chars.None?
    ensures Spell(f, alphabet, len, at) == Spell(f, alphabet, i, at)
    decreases len
  {
    if i < len {
      CutShort(f, alphabet, i, len - 1, at);
    }
  }

  /** DeepFuzzy_AssignCStr. */
  method AssignCStr(tape: InputTape, str: array<byte>, len: nat, allowed: Option<seq<byte>>) returns (ok: bool)
    requires tape.Valid() && str != tape.input && len < str.Length
    requires allowed.Some? ==> 0 < |allowed.value| <= 0x1_0000_0000 && 0 !in allowed.value
    modifies tape`index, tape`drawn, tape.input, str
    ensures tape.Valid()
    ensures var t := Spell(Programs.Serve(tape.tape), allowed, len, old(tape.index));
      ok == t.chars.Some? && tape.index == t.at && (ok ==> str[..len] == t.chars.value)
    ensures ok ==> str[len] == 0 && 0 !in str[..len]
    ensures ok && allowed.Some? ==> forall c :: c in str[..len] ==> c in allowed.value
  {
    SpelledIsAllowed(tape.tape, allowed, len, tape.index);
    ok := Fill(tape, str, len, allowed);
    if ok {
      str[len] := 0;
    }
  }

  /** DeepFuzzy_SwarmAssignCStr: the configuration is asked for only if there is a
      character to read. */
  method SwarmAssignCStr(table: SwarmTable, file: string, line: nat, kind: Kind,
                         str: array<byte>, len: nat, allowed: Option<seq<byte>>) returns (ok: bool)
    requires table.Valid() && str != table.tape.input && len < str.Length
    requires allowed.Some? ==> 0 < |allowed.value| < 0x1_0000_0000 && 0 !in allowed.value
    modifies table, table.tape`index, table.tape`drawn, table.tape.input, str
    ensures table.Valid()
    ensures len == 0 ==> ok && table.tape.index == old(table.tape.index) && table.configs == old(table.configs)
    ensures len > 0 ==>
      var d := Fetch(Programs.Serve(table.tape.tape), old(table.configs), Key(file, line, |Letters(allowed)|), kind,
                     old(table.tape.index));
      && table.configs == Remembered(old(table.configs), Key(file, line, |Letters(allowed)|), d.fmap)
      && (d.fmap.None? ==> !ok && table.tape.index == d.at)
      && (d.fmap.Some? ==>
            && IndexInto(d.fmap.value, |Letters(allowed)|) && 0 < |d.fmap.value| < 0x1_0000_0000
            && var letters := Restrict(Letters(allowed), d.fmap.value);
               var t := Spell(Programs.Serve(table.tape.tape), Some(letters), len, d.at);
               ok == t.chars.Some? && table.tape.index == t.at && (ok ==> str[..len] == t.chars.value))
    ensures ok ==> str[len] == 0 && 0 !in str[..len] && forall c :: c in str[..len] ==> c in Letters(allowed)
  {
    ok := true;
    if len > 0 {
      var letters := Letters(allowed);
      var d := table.GetSwarmConfig(Key(file, line, |letters|), kind);
      if d.fmap.None? {
        return false;
      }
      SpelledIsAllowed(table.tape.tape, Some(Restrict(letters, d.fmap.value)), len, table.tape.index);
      ok := Fill(table.tape, str, len, Some(Restrict(letters, d.fmap.value)));
    }
    if ok {
      str[len] := 0;
    }
  }
}
