/** The printf splitter of the log streams: a format is cut, in a buffer where the
    character after a piece is punched out for a moment, into literal pieces and
    single conversions. */
module Format {
  import opened Words
  import opened Programs
  import opened CStrings

  const PERCENT: byte := 37
  const DOT: byte := 46
  const BIG_L: byte := 76

  /** DeepFuzzy_StreamSize. */
  const STREAM_SIZE: nat := 1048576

  predicate IsFlag(c: byte) {
    c == 45 || c == 43 || c == 32 || c == 35 || c == 48    // - + space # 0
  }

  predicate IsDigit(c: byte) {
    48 <= c <= 57
  }

  predicate IsRepeatable(c: byte) {
    c == 104 || c == 108                    // h l
  }

  predicate IsFinal(c: byte) {
    c == BIG_L || c == 106 || c == 122 || c == 116         // L j z t
  }

  predicate IsConversion(c: byte) {
    IsInteger(c) || IsFloat(c) || c == 115 || c == 110    // s n
  }

  predicate IsInteger(c: byte) {
    // c d i p u o x X
    c == 99 || c == 100 || c == 105 || c == 112 || c == 117 || c == 111 || c == 120 || c == 88
  }

  predicate IsFloat(c: byte) {
    // f F e E g G a A
    c == 102 || c == 70 || c == 101 || c == 69 || c == 103 || c == 71 || c == 97 || c == 65
  }

  /** The first position from `i` on whose character is not of a kind. */
  function Past(f: seq<byte>, i: nat, kind: byte -> bool): (j: nat)
    ensures i <= j && (i <= |f| ==> j <= |f|)
    ensures forall k :: i <= k < j ==> k < |f| && kind(f[k])
    ensures j < |f| ==> !kind(f[j])
    decreases |f| - i
  {
    if i < |f| && kind(f[i]) then Past(f, i + 1, kind) else i
  }

  /** Where the parts of a conversion end.  The text starts at its percent sign. */
  datatype Layout = Layout(flags: nat, width: nat, precision: nat, repeated: nat, length: nat)

  function Scan(f: seq<byte>): (l: Layout)
    ensures 1 <= l.flags <= l.width <= l.precision <= l.repeated <= l.length
    ensures f != [] ==> l.length <= |f|
  {
    var flags := Past(f, 1, IsFlag);
    var width := Past(f, flags, IsDigit);
    var precision := if At(f, width) == DOT then Past(f, width + 1, IsDigit) else width;
    var repeated := Past(f, precision, IsRepeatable);
    Layout(flags, width, precision, repeated, if IsFinal(At(f, repeated)) then repeated + 1 else repeated)
  }

  /** The specifier, and whether there is one. */
  predicate Complete(f: seq<byte>) {
    IsConversion(At(f, Scan(f).length))
  }

  // ----- one conversion

  /** What is taken from the argument list and how it is streamed. */
  datatype Kind = Character | Signed(bytes: nat) | Unsigned(bytes: nat) | Double | LongDouble | Text | Nothing

  function Count(s: seq<byte>, c: byte): nat {
    if s == [] then 0 else Count(s[..|s| - 1], c) + if s[|s| - 1] == c then 1 else 0
  }

  function Halved(n: nat, times: nat): nat {
    if times == 0 then n else Halved(n, times - 1) / 2
  }

  function Adjusted(length: nat, numLs: nat): nat {
    if length == 0 then 1 else if numLs >= 1 then 8 else length
  }

  /** The integer size that a length modifier asks for, where int64_t is a long. */
  function Size(repeated: seq<byte>, final: Option<byte>): nat {
    Adjusted(if final.Some? && final.value != BIG_L then 8 else Halved(4, Count(repeated, 104)), Count(repeated, 108))
  }

  /** The switch over the specifier. */
  function Kinded(c: byte, length: nat, longDouble: bool): Kind {
    if c == 99 then Character
    else if c == 100 || c == 105 then Signed(length)
    else if IsInteger(c) then Unsigned(length)
    else if IsFloat(c) then if longDouble then LongDouble else Double
    else if c == 115 then Text
    else Nothing
  }

  function KindOf(c: byte, repeated: seq<byte>, final: Option<byte>): Kind {
    Kinded(c, if c == 112 then 8 else Size(repeated, final), final == Some(BIG_L))
  }

  /** A single conversion, as it is handed to snprintf. */
  datatype Conversion = Conversion(text: seq<byte>, kind: Kind)

  /** The length modifier that is not repeated. */
  function FinalOf(f: seq<byte>): Option<byte>
  {
    var l := Scan(f);
    if l.length > l.repeated then Some(At(f, l.repeated)) else None
  }

  lemma FinalIs(f: seq<byte>, c: byte)
    requires c == At(f, Scan(f).repeated)
    ensures FinalOf(f) == Some(BIG_L) <==> c == BIG_L
    ensures (FinalOf(f).Some? && FinalOf(f).value != BIG_L) <==> IsFinal(c) && c != BIG_L
  {
  }

  /** The conversion that a text starts with: without `L`, and with `x` for `p`. */
  function Converted(f: seq<byte>): Conversion
    requires Complete(f)
  {
    var l := Scan(f);
    CompleteIsInside(f);
    var c := f[l.length];
    Conversion(f[..if FinalOf(f) == Some(BIG_L) then l.repeated else l.length] + [if c == 112 then 120 else c],
               KindOf(c, f[l.precision..l.repeated], FinalOf(f)))
  }

  lemma CompleteIsInside(f: seq<byte>)
    requires Complete(f)
    ensures Scan(f).length < |f|
  {
  }

  /** READ_FORMAT_CHAR. */
  method ReadFormatChar(f: seq<byte>, buf: array<byte>, i: nat, k: nat) returns (ch: byte)
    requires k <= i && i - k + 1 < buf.Length
    modifies buf
    ensures ch == At(f, i) && buf[..i - k + 1] == old(buf[..i - k]) + [ch]
  {
    ch := At(f, i);
    buf[i - k] := ch;
    buf[i - k + 1] := NUL;
  }

  /** What has been read of a text, with the end of the string for its last character. */
  ghost predicate HasRead(f: seq<byte>, buf: seq<byte>, i: nat, ch: byte) {
    1 <= i <= |f| + 1 && ch == At(f, i - 1) && buf == f[..i - 1] + [ch]
  }

  /** The loops over flags and digits: from a character that has been read to the
      first one that is of another kind. */
  method ReadWhile(f: seq<byte>, buf: array<byte>, start: nat, first: byte, kind: byte -> bool)
    returns (i: nat, ch: byte)
    requires start < buf.Length && HasRead(f, buf[..start], start, first)
    requires Past(f, start - 1, kind) + 2 <= buf.Length && !kind(NUL)
    modifies buf
    ensures i == Past(f, start - 1, kind) + 1 && i < buf.Length && HasRead(f, buf[..i], i, ch) && !kind(ch)
  {
    i, ch := start, first;
    while kind(ch)
      invariant i < buf.Length && HasRead(f, buf[..i], i, ch) && Past(f, start - 1, kind) == Past(f, i - 1, kind)
      decreases |f| - i
    {
      ch := ReadFormatChar(f, buf, i, 0);
      i := i + 1;
    }
  }

  /** The loop over `h` and `l`. */
  method ReadLength(f: seq<byte>, buf: array<byte>, start: nat, first: byte)
    returns (i: nat, ch: byte, length: nat, numLs: nat)
    requires start < buf.Length && HasRead(f, buf[..start], start, first)
    requires Past(f, start - 1, IsRepeatable) + 2 <= buf.Length
    modifies buf
    ensures i == Past(f, start - 1, IsRepeatable) + 1 && i < buf.Length && HasRead(f, buf[..i], i, ch)
    ensures length == Halved(4, Count(f[start - 1..i - 1], 104)) && numLs == Count(f[start - 1..i - 1], 108)
  {
    i, ch, length, numLs := start, first, 4, 0;
    ghost var read: seq<byte> := [];
    while IsRepeatable(ch)
      invariant i < buf.Length && HasRead(f, buf[..i], i, ch) && start <= i && read == f[start - 1..i - 1]
      invariant Past(f, start - 1, IsRepeatable) == Past(f, i - 1, IsRepeatable)
      invariant length == Halved(4, Count(read, 104)) && numLs == Count(read, 108)
      decreases |f| - i
    {
      if ch == 104 {
        length := length / 2;
      } else {
        numLs := numLs + 1;
      }
      CountNext(read, ch);
      read := read + [ch];
      ch := ReadNext(f, buf, i, ch);
      i := i + 1;
    }
  }

  lemma CountNext(s: seq<byte>, c: byte)
    ensures Count(s + [c], 104) == Count(s, 104) + if c == 104 then 1 else 0
    ensures Count(s + [c], 108) == Count(s, 108) + if c == 108 then 1 else 0
  {
    assert (s + [c])[..|s|] == s;
  }

  /** One more character. */
  method ReadNext(f: seq<byte>, buf: array<byte>, i: nat, ch: byte) returns (next: byte)
    requires i + 1 < buf.Length && HasRead(f, buf[..i], i, ch) && i <= |f|
    modifies buf
    ensures HasRead(f, buf[..i + 1], i + 1, next)
  {
    next := ReadFormatChar(f, buf, i, 0);
  }

  /** The flags and the width. */
  method ReadWidth(f: seq<byte>, buf: array<byte>) returns (i: nat, ch: byte)
    requires f != [] && f[0] == PERCENT && Scan(f).width <= 30 && buf.Length == 32
    modifies buf
    ensures i == Scan(f).width + 1 && HasRead(f, buf[..i], i, ch)
  {
    ch := ReadFormatChar(f, buf, 0, 0);
    assert HasRead(f, buf[..1], 1, ch);
    ch := ReadNext(f, buf, 1, ch);
    i, ch := ReadWhile(f, buf, 2, ch, IsFlag);
    i, ch := ReadWhile(f, buf, i, ch, IsDigit);
  }

  /** Up to the precision. */
  method ReadPrecision(f: seq<byte>, buf: array<byte>) returns (i: nat, ch: byte)
    requires f != [] && f[0] == PERCENT && Scan(f).precision <= 30 && buf.Length == 32
    modifies buf
    ensures i == Scan(f).precision + 1 && HasRead(f, buf[..i], i, ch)
  {
    i, ch := ReadWidth(f, buf);
    if ch == DOT {
      ch := ReadNext(f, buf, i, ch);
      i, ch := ReadWhile(f, buf, i + 1, ch, IsDigit);
    }
  }

  /** Up to the repeatable length modifiers. */
  method ReadStart(f: seq<byte>, buf: array<byte>) returns (i: nat, ch: byte, length: nat, numLs: nat)
    requires f != [] && f[0] == PERCENT && Scan(f).length <= 30 && buf.Length == 32
    modifies buf
    ensures i == Scan(f).repeated + 1 && HasRead(f, buf[..i], i, ch)
    ensures var repeated := f[Scan(f).precision..Scan(f).repeated];
      length == Halved(4, Count(repeated, 104)) && numLs == Count(repeated, 108)
  {
    i, ch := ReadPrecision(f, buf);
    i, ch, length, numLs := ReadLength(f, buf, i, ch);
  }

  /** The last length modifier, if any.  An `L` is overwritten. */
  method ReadFinal(f: seq<byte>, buf: array<byte>, start: nat, first: byte)
    returns (i: nat, k: nat, ch: byte, wide: bool)
    requires f != [] && Scan(f).length <= 30 && buf.Length == 32
    requires start == Scan(f).repeated + 1 && HasRead(f, buf[..start], start, first)
    modifies buf
    ensures i == Scan(f).length + 1 && ch == At(f, i - 1)
    ensures k == 1 <==> first == BIG_L
    ensures wide <==> IsFinal(first) && first != BIG_L
    ensures k <= 1 < i && buf[..i - k - 1] == f[..if first == BIG_L then Scan(f).repeated else Scan(f).length]
    ensures buf[i - k - 1] == ch
  {
    i, k, ch, wide := start, 0, first, false;
    assert buf[..start][..start - 1] == buf[..start - 1] == f[..start - 1];
    assert buf[..start][start - 1] == first;
    if ch == BIG_L {
      k := 1;
      ch := ReadFormatChar(f, buf, i, k);
      i := i + 1;
    } else if IsFinal(ch) {
      wide := true;
      ch := ReadNext(f, buf, i, ch);
      i := i + 1;
    }
  }

  lemma ConvertedIs(f: seq<byte>, first: byte, halved: nat, numLs: nat, size: nat, text: seq<byte>, ch: byte)
    requires Complete(f) && first == At(f, Scan(f).repeated) && ch == At(f, Scan(f).length)
    requires var repeated := f[Scan(f).precision..Scan(f).repeated];
      halved == Halved(4, Count(repeated, 104)) && numLs == Count(repeated, 108)
    requires text == f[..if first == BIG_L then Scan(f).repeated else Scan(f).length]
    requires size == Adjusted(if IsFinal(first) && first != BIG_L then 8 else halved, numLs)
    ensures
      Converted(f) == Conversion(text + [if ch == 112 then 120 else ch],
                                 Kinded(ch, if ch == 112 then 8 else size, first == BIG_L))
  {
    FinalIs(f, first);
  }

  /** The parts of a conversion up to the specifier, which is in the buffer too. */
  method ReadSpecification(f: seq<byte>, buf: array<byte>) returns (i: nat, k: nat, ch: byte, length: nat)
    requires f != [] && f[0] == PERCENT && Scan(f).length <= 30 && buf.Length == 32
    modifies buf
    ensures i == Scan(f).length + 1 && ch == At(f, i - 1) && k <= 1 < i && buf[i - k - 1] == ch
    ensures Complete(f) ==>
      Converted(f) == Conversion(buf[..i - k - 1] + [if ch == 112 then 120 else ch],
                                 Kinded(ch, if ch == 112 then 8 else length, k == 1))
  {
    var numLs, wide;
    i, ch, length, numLs := ReadStart(f, buf);
    ghost var (first, halved) := (ch, length);
    i, k, ch, wide := ReadFinal(f, buf, i, ch);
    if wide {
      length := 8;
    }
    if length == 0 {
      length := 1;
    } else if numLs >= 1 {
      length := 8;
    }
    if Complete(f) {
      ConvertedIs(f, first, halved, numLs, length, buf[..i - k - 1], ch);
    }
  }

  /** DeepFuzzy_StreamFormatValue, up to the streaming: the conversion and its
      length in the format.  A longer conversion would overrun the buffer. */
  method FormatValue(f: seq<byte>) returns (ok: bool, i: nat, conversion: Conversion)
    requires f != [] && f[0] == PERCENT && Scan(f).length <= 30
    ensures ok <==> Complete(f)
    ensures ok ==> i == Scan(f).length + 1 && conversion == Converted(f)
    ensures forall s: Specification :: s.Valid() && s.Text() <= f ==>
      ok && i == |s.Text()| && conversion == s.Meant()
  {
    StartsMeaning(f);
    var buf := new byte[32](_ => NUL);
    var k, ch, length;
    i, k, ch, length := ReadSpecification(f, buf);
    ok := IsConversion(ch);
    conversion := Conversion([], Nothing);
    if ok {
      if ch == 112 {
        length := 8;
        buf[i - k - 1] := 120;
      }
      assert buf[..i - k] == buf[..i - k - 1] + [buf[i - k - 1]];
      conversion := Conversion(buf[..i - k], Kinded(ch, length, k == 1));
    }
  }

  // ----- conversion specifications

  /** A conversion specification: the subset of section 7.19.6.1 of ISO/IEC 9899:1999
      without `*`, with any run of `h` and `l`. */
  datatype Specification = Specification(flags: seq<byte>, width: seq<byte>, precision: Option<seq<byte>>,
                                         repeated: seq<byte>, final: Option<byte>, conversion: byte)
  {
    ghost predicate Valid() {
      && All(flags, IsFlag) && All(width, IsDigit) && (width != [] ==> width[0] != 48)
      && (precision.Some? ==> All(precision.value, IsDigit))
      && All(repeated, IsRepeatable) && (final.Some? ==> IsFinal(final.value)) && IsConversion(conversion)
    }

    function Ending(): seq<byte> {
      if final.Some? then [final.value, conversion] else [conversion]
    }

    function AfterPrecision(): seq<byte> {
      repeated + Ending()
    }

    function AfterWidth(): seq<byte> {
      if precision.Some? then [DOT] + (precision.value + AfterPrecision()) else AfterPrecision()
    }

    function AfterFlags(): seq<byte> {
      width + AfterWidth()
    }

    function Text(): seq<byte> {
      [PERCENT] + (flags + AfterFlags())
    }

    // ----- what it means, by its letters

    /** How often a letter is among the repeatable modifiers. */
    ghost function Often(letter: char): nat
      requires letter < 256 as char
    {
      multiset(repeated)[letter as int]
    }

    /** The bytes of the integer. */
    ghost function LetterSize(): nat {
      if final.Some? && In(final.value, "jzt") then 8
      else if Often('h') >= 3 then 1
      else if Often('l') >= 1 then 8
      else if Often('h') == 2 then 1
      else if Often('h') == 1 then 2
      else 4
    }

    ghost function LetterKind(): Kind {
      if In(conversion, "c") then Character
      else if In(conversion, "di") then Signed(LetterSize())
      else if In(conversion, "uoxX") then Unsigned(LetterSize())
      else if In(conversion, "p") then Unsigned(8)
      else if In(conversion, "s") then Kind.Text
      else if In(conversion, "n") then Nothing
      else if final.Some? && In(final.value, "L") then LongDouble else Double
    }

    /** Up to the repeatable modifiers. */
    function Head(): seq<byte> {
      [PERCENT] + flags + width + (if precision.Some? then [DOT] + precision.value else []) + repeated
    }

    /** The text for snprintf: without `L`, and with `x` for `p`. */
    ghost function Printed(): seq<byte> {
      Head() + (if final.Some? && !In(final.value, "L") then [final.value] else [])
        + [if In(conversion, "p") then 'x' as int else conversion]
    }

    ghost function Meant(): Conversion {
      Conversion(Printed(), LetterKind())
    }
  }

  predicate In(c: byte, letters: string) {
    (c as char) in letters
  }

  /** The classes of characters, by their letters. */
  lemma CharacterClasses(c: byte)
    ensures IsFlag(c) <==> In(c, "-+ #0")
    ensures IsDigit(c) <==> In(c, "0123456789")
    ensures IsRepeatable(c) <==> In(c, "hl")
    ensures IsFinal(c) <==> In(c, "Ljzt")
    ensures IsConversion(c) <==> In(c, "cdiuoxXpfFeEgGaAsn")
    ensures c == PERCENT <==> In(c, "%")
    ensures c == DOT <==> In(c, ".")
    ensures c == BIG_L <==> In(c, "L")
  {
  }

  ghost predicate All(s: seq<byte>, kind: byte -> bool) {
    forall k :: 0 <= k < |s| ==> kind(s[k])
  }

  /** The text from `i` on starts with a run of one kind, and goes on with another. */
  lemma {:induction false} SpanStep(f: seq<byte>, i: nat, run: seq<byte>, t: seq<byte>, kind: byte -> bool)
    requires i <= |f| && f[i..] == run + t && All(run, kind) && (t == [] || !kind(t[0]))
    ensures Past(f, i, kind) == i + |run| && f[i + |run|..] == t
    decreases |run|
  {
    assert |f| == i + |run| + |t|;
    if run == [] {
      assert t != [] ==> f[i] == f[i..][0] == t[0];
    } else {
      assert f[i] == f[i..][0] == run[0];
      assert f[i + 1..] == f[i..][1..] == run[1..] + t;
      SpanStep(f, i + 1, run[1..], t, kind);
    }
  }

  ghost predicate From(f: seq<byte>, i: nat, t: seq<byte>, rest: seq<byte>) {
    i <= |f| && f[i..] == t + rest
  }

  lemma SpanIn(f: seq<byte>, i: nat, run: seq<byte>, t: seq<byte>, rest: seq<byte>, kind: byte -> bool)
    requires From(f, i, run + t, rest) && All(run, kind) && t != [] && !kind(t[0])
    ensures Past(f, i, kind) == i + |run| && From(f, i + |run|, t, rest) && At(f, i + |run|) == t[0]
  {
    Assoc(run, t, rest);
    SpanStep(f, i, run, t + rest, kind);
    assert f[i + |run|] == f[i + |run|..][0];
  }

  lemma SkipOne(f: seq<byte>, i: nat, c: byte, t: seq<byte>, rest: seq<byte>)
    requires From(f, i, [c] + t, rest)
    ensures At(f, i) == c && From(f, i + 1, t, rest)
  {
    Assoc([c], t, rest);
    assert f[i] == f[i..][0] == c;
    assert f[i + 1..] == f[i..][1..] == t + rest;
  }

  lemma ScanFlags(f: seq<byte>, s: Specification, rest: seq<byte>)
    requires s.Valid() && From(f, 0, s.Text(), rest)
    ensures Past(f, 1, IsFlag) == 1 + |s.flags| && From(f, 1 + |s.flags|, s.AfterFlags(), rest)
  {
    SkipOne(f, 0, PERCENT, s.flags + s.AfterFlags(), rest);
    assert s.AfterFlags()[0] == if s.width == [] then s.AfterWidth()[0] else s.width[0];
    SpanIn(f, 1, s.flags, s.AfterFlags(), rest, IsFlag);
  }

  lemma ScanFlagsWidth(f: seq<byte>, s: Specification, rest: seq<byte>)
    requires s.Valid() && From(f, 0, s.Text(), rest)
    ensures Scan(f).width == 1 + |s.flags| + |s.width| && From(f, Scan(f).width, s.AfterWidth(), rest)
  {
    ScanFlags(f, s, rest);
    SpanIn(f, 1 + |s.flags|, s.width, s.AfterWidth(), rest, IsDigit);
  }

  lemma PrecisionIn(f: seq<byte>, w: nat, s: Specification, rest: seq<byte>)
    requires s.Valid() && From(f, w, s.AfterWidth(), rest)
    ensures var p := if At(f, w) == DOT then Past(f, w + 1, IsDigit) else w;
      p + |s.AfterPrecision()| == w + |s.AfterWidth()| && From(f, p, s.AfterPrecision(), rest)
  {
    var t := s.AfterPrecision();
    if s.precision.Some? {
      SkipOne(f, w, DOT, s.precision.value + t, rest);
      SpanIn(f, w + 1, s.precision.value, t, rest, IsDigit);
    } else {
      assert At(f, w) == f[w..][0] == t[0];
    }
  }

  lemma ScanPrecision(f: seq<byte>, s: Specification, rest: seq<byte>)
    requires s.Valid() && From(f, Scan(f).width, s.AfterWidth(), rest)
    ensures Scan(f).precision + |s.AfterPrecision()| == Scan(f).width + |s.AfterWidth()|
    ensures From(f, Scan(f).precision, s.AfterPrecision(), rest)
  {
    PrecisionIn(f, Scan(f).width, s, rest);
  }

  lemma RepeatedIn(f: seq<byte>, p: nat, s: Specification, rest: seq<byte>)
    requires s.Valid() && From(f, p, s.AfterPrecision(), rest)
    ensures Past(f, p, IsRepeatable) == p + |s.repeated| && From(f, p + |s.repeated|, s.Ending(), rest)
  {
    SpanIn(f, p, s.repeated, s.Ending(), rest, IsRepeatable);
  }

  lemma EndingIn(f: seq<byte>, r: nat, s: Specification, rest: seq<byte>)
    requires s.Valid() && From(f, r, s.Ending(), rest)
    ensures var length := if IsFinal(At(f, r)) then r + 1 else r;
      IsConversion(At(f, length)) && length + 1 == r + |s.Ending()|
  {
    if s.final.Some? {
      assert s.Ending() == [s.final.value] + [s.conversion];
      SkipOne(f, r, s.final.value, [s.conversion], rest);
      assert f[r + 1] == f[r + 1..][0];
    } else {
      assert f[r] == f[r..][0];
    }
  }

  lemma ScanLength(f: seq<byte>, s: Specification, rest: seq<byte>)
    requires s.Valid() && From(f, Scan(f).precision, s.AfterPrecision(), rest)
    ensures Complete(f) && Scan(f).length + 1 == Scan(f).precision + |s.AfterPrecision()|
  {
    var p := Scan(f).precision;
    RepeatedIn(f, p, s, rest);
    EndingIn(f, p + |s.repeated|, s, rest);
  }

  /** The parts of a specification are found where they are. */
  lemma ScanReads(s: Specification, rest: seq<byte>)
    requires s.Valid()
    ensures var f := s.Text() + rest; Complete(f) && Scan(f).length + 1 == |s.Text()|
  {
    var f := s.Text() + rest;
    assert f[0..] == f;
    ScanFlagsWidth(f, s, rest);
    ScanPrecision(f, s, rest);
    ScanLength(f, s, rest);
  }

  /** The specification found in a text. */
  function SpecificationOf(f: seq<byte>): Specification
    requires Complete(f)
  {
    var l := Scan(f);
    CompleteIsInside(f);
    Specification(f[1..l.flags], f[l.flags..l.width],
                  if At(f, l.width) == DOT then Some(f[l.width + 1..l.precision]) else None,
                  f[l.precision..l.repeated], FinalOf(f), f[l.length])
  }

  lemma FoundIsValid(f: seq<byte>)
    requires Complete(f)
    ensures SpecificationOf(f).Valid()
  {
  }

  lemma TextOfParts(f: seq<byte>, flags: nat, width: nat, end: nat, s: Specification)
    requires 1 <= flags <= width <= end <= |f| && f[0] == PERCENT
    requires s.flags == f[1..flags] && s.width == f[flags..width] && s.AfterWidth() == f[width..end]
    ensures s.Text() == f[..end]
  {
    Glue(f, flags, width, end);
    Glue(f, 1, flags, end);
    Glue(f, 0, 1, end);
    assert f[0..1] == [PERCENT];
  }

  lemma AfterWidthOfParts(f: seq<byte>, width: nat, precision: nat, repeated: nat, end: nat, s: Specification)
    requires width <= precision <= repeated <= end <= |f|
    requires if s.precision.Some? then
               width < precision && f[width] == DOT && s.precision.value == f[width + 1..precision]
             else width == precision
    requires s.repeated == f[precision..repeated] && s.Ending() == f[repeated..end]
    ensures s.AfterWidth() == f[width..end]
  {
    Glue(f, precision, repeated, end);
    if s.precision.Some? {
      Glue(f, width + 1, precision, end);
      Glue(f, width, width + 1, end);
      assert f[width..width + 1] == [DOT];
    }
  }

  lemma EndingFound(f: seq<byte>)
    requires Complete(f)
    ensures Scan(f).length < |f| && SpecificationOf(f).Ending() == f[Scan(f).repeated..Scan(f).length + 1]
  {
  }

  lemma PrecisionFound(f: seq<byte>, l: Layout)
    requires l == Scan(f)
    ensures if At(f, l.width) == DOT then l.width < l.precision else l.width == l.precision
  {
  }

  /** What is found is a specification. */
  lemma ScanIsText(f: seq<byte>)
    requires f != [] && f[0] == PERCENT && Complete(f)
    ensures Scan(f).length < |f| && SpecificationOf(f).Valid() && SpecificationOf(f).Text() == f[..Scan(f).length + 1]
  {
    var l, s := Scan(f), SpecificationOf(f);
    FoundIsValid(f);
    EndingFound(f);
    PrecisionFound(f, l);
    AfterWidthOfParts(f, l.width, l.precision, l.repeated, l.length + 1, s);
    TextOfParts(f, l.flags, l.width, l.length + 1, s);
  }

  lemma Glue(f: seq<byte>, a: nat, b: nat, c: nat)
    requires a <= b <= c <= |f|
    ensures f[a..b] + f[b..c] == f[a..c]
  {
  }

  /** A text is scanned as a conversion exactly when it starts with a specification,
      and then exactly that specification is consumed. */
  lemma ScannedExactly(f: seq<byte>)
    requires f != [] && f[0] == PERCENT
    ensures Complete(f) <==> exists s: Specification :: s.Valid() && s.Text() <= f
    ensures forall s: Specification :: s.Valid() && s.Text() <= f ==> |s.Text()| == Scan(f).length + 1
  {
    if Complete(f) {
      ScanIsText(f);
    }
    forall s: Specification | s.Valid() && s.Text() <= f
      ensures Complete(f) && |s.Text()| == Scan(f).length + 1
    {
      ScanStarts(s, s.Text(), f);
    }
  }

  lemma ScanStarts(s: Specification, t: seq<byte>, f: seq<byte>)
    requires s.Valid() && t == s.Text() && t <= f
    ensures Complete(f) && |t| == Scan(f).length + 1
  {
    assert f == t + f[|t|..];
    ScanReads(s, f[|t|..]);
  }

  /** The length modifiers of the standard ask for the sizes it gives them, where int
      has four bytes and long, intmax_t, size_t and ptrdiff_t have eight. */
  lemma StandardSizes()
    ensures Size([], None) == 4
    ensures Size([104], None) == 2 && Size([104, 104], None) == 1
    ensures Size([108], None) == 8 && Size([108, 108], None) == 8
    ensures Size([], Some(106)) == 8 && Size([], Some(122)) == 8 && Size([], Some(116)) == 8
  {
  }

  lemma {:induction false} CountIs(s: seq<byte>, c: byte)
    ensures Count(s, c) == multiset(s)[c]
  {
    if s != [] {
      CountIs(s[..|s| - 1], c);
      assert s == s[..|s| - 1] + [s[|s| - 1]];
    }
  }

  lemma {:induction false} HalvedIs(n: nat)
    ensures Halved(4, n) == if n == 0 then 4 else if n == 1 then 2 else if n == 2 then 1 else 0
  {
    if n > 0 {
      HalvedIs(n - 1);
    }
  }

  lemma SizeByLetter(s: Specification)
    requires s.Valid()
    ensures Size(s.repeated, s.final) == s.LetterSize()
  {
    CountIs(s.repeated, 104);
    CountIs(s.repeated, 108);
    HalvedIs(Count(s.repeated, 104));
    if s.final.Some? {
      CharacterClasses(s.final.value);
    }
  }

  lemma KindByLetter(s: Specification)
    requires s.Valid()
    ensures KindOf(s.conversion, s.repeated, s.final) == s.LetterKind()
  {
    SizeByLetter(s);
    CharacterClasses(s.conversion);
    if s.final.Some? {
      CharacterClasses(s.final.value);
    }
  }

  /** A specification is converted to what its letters mean. */
  lemma ConvertedMeans(s: Specification)
    requires s.Valid()
    ensures Complete(s.Text()) && Converted(s.Text()) == s.Meant()
  {
    var f := s.Text();
    AloneIsComplete(s);
    PartsFound(s, f);
    KindByLetter(s);
  }

  /** In its own text, a specification is found. */
  lemma PartsFound(s: Specification, f: seq<byte>)
    requires s.Valid() && f == s.Text() && Complete(f) && Scan(f).length + 1 == |f|
    ensures f[Scan(f).precision..Scan(f).repeated] == s.repeated && FinalOf(f) == s.final
    ensures f[Scan(f).length] == s.conversion
    ensures Converted(f).text == s.Printed()
  {
    ModifiersFound(s, f);
    HeadAndEnding(s, f);
    PrintedFound(s, f, Scan(f), s.Head());
  }

  lemma ModifiersFound(s: Specification, f: seq<byte>)
    requires s.Valid() && f == s.Text() && Complete(f) && Scan(f).length + 1 == |f|
    ensures f[Scan(f).precision..Scan(f).repeated] == s.repeated && FinalOf(f) == s.final
    ensures f[Scan(f).length] == s.conversion
  {
    var none: seq<byte> := [];
    assert f[0..] == f + none;
    ScanFlagsWidth(f, s, none);
    ScanPrecision(f, s, none);
    RepeatedIn(f, Scan(f).precision, s, none);
    EndingIn(f, Scan(f).repeated, s, none);
    TailFound(s, f, Scan(f).precision, Scan(f).repeated);
  }

  lemma TailFound(s: Specification, f: seq<byte>, p: nat, r: nat)
    requires s.Valid() && p <= r <= |f| && r == p + |s.repeated| && From(f, p, s.AfterPrecision(), [])
    requires p == Scan(f).precision && r == Scan(f).repeated && Scan(f).length + 1 == |f|
    ensures f[p..r] == s.repeated && FinalOf(f) == s.final && f[Scan(f).length] == s.conversion
  {
    assert f[p..] == s.repeated + s.Ending();
    assert f[r..] == f[p..][|s.repeated|..] == s.Ending();
    assert f[p..r] == f[p..][..|s.repeated|];
    assert f[r] == f[r..][0];
    if s.final.Some? {
      assert f[r + 1] == f[r..][1];
    }
  }

  lemma HeadAndEnding(s: Specification, f: seq<byte>)
    requires f == s.Text()
    ensures f == s.Head() + s.Ending()
  {
  }

  lemma PrintedFound(s: Specification, f: seq<byte>, l: Layout, head: seq<byte>)
    requires Complete(f) && l == Scan(f) && l.length + 1 == |f| && f == head + s.Ending() && head == s.Head()
    requires s.Valid() && FinalOf(f) == s.final && f[l.length] == s.conversion
    ensures Converted(f).text == s.Printed()
  {
    CharacterClasses(s.conversion);
    if s.final.Some? {
      CharacterClasses(s.final.value);
      assert f[..l.repeated] == head && f[..l.length] == head + [s.final.value];
    } else {
      assert f[..l.length] == head && head + [] == head;
    }
  }

  /** What a text starts with, it is read as. */
  lemma StartsMeaning(f: seq<byte>)
    requires f != [] && f[0] == PERCENT
    ensures forall s: Specification :: s.Valid() && s.Text() <= f ==>
      Complete(f) && Scan(f).length + 1 == |s.Text()| && Converted(f) == s.Meant()
  {
    forall s: Specification | s.Valid() && s.Text() <= f
      ensures Complete(f) && Scan(f).length + 1 == |s.Text()| && Converted(f) == s.Meant()
    {
      StartMeans(s, s.Text(), f);
    }
  }

  lemma StartMeans(s: Specification, t: seq<byte>, f: seq<byte>)
    requires s.Valid() && t == s.Text() && t <= f
    ensures Complete(f) && Scan(f).length + 1 == |t| && Converted(f) == s.Meant()
  {
    assert f == t + f[|t|..];
    ConvertedAlone(s, f[|t|..]);
    ConvertedMeans(s);
  }

  // ----- the whole format

  /** What snprintf makes of a conversion and the argument of that number. */
  type Render = (Conversion, nat) -> seq<byte>

  function Then(a: seq<byte>, rest: Option<seq<byte>>): Option<seq<byte>> {
    if rest.None? then None else Some(a + rest.value)
  }

  /** The reference: character by character, with `%%` for a percent sign, and one
      argument for each conversion but `%n`.  Nothing for a format that is refused. */
  function Expanded(f: seq<byte>, i: nat, arg: nat, render: Render): Option<seq<byte>>
    decreases |f| - i
  {
    if i >= |f| then Some([])
    else if f[i] != PERCENT then Then([f[i]], Expanded(f, i + 1, arg, render))
    else if At(f, i + 1) == PERCENT then Then([PERCENT], Expanded(f, i + 2, arg, render))
    else if !Complete(f[i..]) then None
    else
      CompleteIsInside(f[i..]);
      Then(Rendered(f, i, arg, render), Expanded(f, i + Scan(f[i..]).length + 1, NextArg(f, i, arg), render))
  }

  function Rendered(f: seq<byte>, i: nat, arg: nat, render: Render): seq<byte>
    requires i < |f| && Complete(f[i..])
  {
    if Converted(f[i..]).kind.Nothing? then [] else render(Converted(f[i..]), arg)
  }

  function NextArg(f: seq<byte>, i: nat, arg: nat): nat
    requires i < |f| && Complete(f[i..])
  {
    if Converted(f[i..]).kind.Nothing? then arg else arg + 1
  }

  lemma ThenThen(a: seq<byte>, b: seq<byte>, rest: Option<seq<byte>>)
    ensures Then(a, Then(b, rest)) == Then(a + b, rest)
  {
    if rest.Some? {
      assert a + (b + rest.value) == a + b + rest.value;
    }
  }

  /** The pieces that a writer of a format puts in a row. */
  datatype Token = Plain(c: byte) | Percent | Single(spec: Specification) {
    ghost predicate Valid() {
      (Plain? ==> c != PERCENT && c != NUL) && (Single? ==> spec.Valid())
    }

    function Text(): seq<byte> {
      match this
      case Plain(c) => [c]
      case Percent => [PERCENT, PERCENT]
      case Single(spec) => spec.Text()
    }
  }

  function Flat(tokens: seq<Token>): seq<byte> {
    if tokens == [] then [] else tokens[0].Text() + Flat(tokens[1..])
  }

  ghost predicate AllValid(tokens: seq<Token>) {
    forall k :: 0 <= k < |tokens| ==> tokens[k].Valid()
  }

  /** What a row of pieces stands for: each conversion prints its own argument. */
  ghost function Meaning(tokens: seq<Token>, arg: nat, render: Render): seq<byte>
    requires AllValid(tokens)
  {
    if tokens == [] then []
    else
      var (text, next) := FirstMeaning(tokens[0], arg, render);
      text + Meaning(tokens[1..], next, render)
  }

  /** The arguments that a row of pieces takes. */
  ghost function Arguments(tokens: seq<Token>): nat {
    if tokens == [] then 0 else Takes(tokens[0]) + Arguments(tokens[1..])
  }

  /** Every conversion but n takes one argument. */
  ghost function Takes(t: Token): nat {
    if t.Single? && !In(t.spec.conversion, "n") then 1 else 0
  }

  lemma FirstTakes(t: Token, arg: nat, render: Render)
    requires t.Valid()
    ensures FirstMeaning(t, arg, render).1 == arg + Takes(t)
  {
  }

  /** What follows a row of pieces takes the arguments after those of the row. */
  lemma {:induction false} MeaningGoesOn(tokens: seq<Token>, more: seq<Token>, arg: nat, render: Render)
    requires AllValid(tokens) && AllValid(more)
    ensures AllValid(tokens + more)
    ensures Meaning(tokens + more, arg, render)
         == Meaning(tokens, arg, render) + Meaning(more, arg + Arguments(tokens), render)
  {
    if tokens == [] {
      assert tokens + more == more;
    } else {
      var (text, next) := FirstMeaning(tokens[0], arg, render);
      assert (tokens + more)[1..] == tokens[1..] + more;
      MeaningGoesOn(tokens[1..], more, next, render);
      FirstTakes(tokens[0], arg, render);
      MeaningStep(tokens, arg, render, text, next);
      MeaningStep(tokens + more, arg, render, text, next);
      Assoc(text, Meaning(tokens[1..], next, render), Meaning(more, next + Arguments(tokens[1..]), render));
    }
  }

  lemma MeaningStep(tokens: seq<Token>, arg: nat, render: Render, text: seq<byte>, next: nat)
    requires AllValid(tokens) && tokens != [] && FirstMeaning(tokens[0], arg, render) == (text, next)
    ensures Meaning(tokens, arg, render) == text + Meaning(tokens[1..], next, render)
  {
  }

  lemma AloneIsComplete(s: Specification)
    requires s.Valid()
    ensures Complete(s.Text()) && Scan(s.Text()).length + 1 == |s.Text()|
  {
    assert s.Text() + [] == s.Text();
    ScanReads(s, []);
  }

  /** What follows a specification does not matter to it. */
  lemma ConvertedAlone(s: Specification, rest: seq<byte>)
    requires s.Valid()
    ensures Complete(s.Text()) && Complete(s.Text() + rest) && Scan(s.Text() + rest).length + 1 == |s.Text()|
    ensures Converted(s.Text() + rest) == Converted(s.Text())
  {
    AloneIsComplete(s);
    ScanReads(s, rest);
    SameScan(s.Text(), rest);
  }

  lemma {:induction false} PastPrefix(t: seq<byte>, rest: seq<byte>, i: nat, kind: byte -> bool)
    requires Past(t, i, kind) < |t|
    ensures Past(t + rest, i, kind) == Past(t, i, kind)
    decreases |t| - i
  {
    if i < |t| && kind(t[i]) {
      PastPrefix(t, rest, i + 1, kind);
    }
  }

  lemma SameWidth(t: seq<byte>, rest: seq<byte>)
    requires Scan(t).width < |t|
    ensures Scan(t + rest).flags == Scan(t).flags && Scan(t + rest).width == Scan(t).width
  {
    PastPrefix(t, rest, 1, IsFlag);
    PastPrefix(t, rest, Scan(t).flags, IsDigit);
  }

  lemma SameLayout(t: seq<byte>, rest: seq<byte>)
    requires Complete(t)
    ensures Scan(t + rest) == Scan(t)
  {
    var l := Scan(t);
    CompleteIsInside(t);
    SameWidth(t, rest);
    assert At(t + rest, l.width) == At(t, l.width);
    if At(t, l.width) == DOT {
      PastPrefix(t, rest, l.width + 1, IsDigit);
    }
    assert Scan(t + rest).precision == l.precision;
    PastPrefix(t, rest, l.precision, IsRepeatable);
    assert At(t + rest, l.repeated) == At(t, l.repeated);
  }

  lemma SameScan(t: seq<byte>, rest: seq<byte>)
    requires Complete(t)
    ensures Scan(t + rest) == Scan(t) && Complete(t + rest) && Converted(t + rest) == Converted(t)
  {
    var l, f := Scan(t), t + rest;
    CompleteIsInside(t);
    SameLayout(t, rest);
    assert f[..l.length] == t[..l.length] && f[..l.repeated] == t[..l.repeated];
    assert f[l.precision..l.repeated] == t[l.precision..l.repeated];
  }

  lemma {:induction false} ExpandedSuffix(f: seq<byte>, i: nat, j: nat, arg: nat, render: Render)
    requires i <= |f|
    ensures Expanded(f, i + j, arg, render) == Expanded(f[i..], j, arg, render)
    decreases |f| - i - j, 1
  {
    var g := f[i..];
    if j < |g| {
      assert f[i + j] == g[j] && At(f, i + j + 1) == At(g, j + 1);
      if g[j] != PERCENT {
        ExpandedSuffix(f, i, j + 1, arg, render);
      } else if At(g, j + 1) == PERCENT {
        ExpandedSuffix(f, i, j + 2, arg, render);
      } else {
        ConversionSuffix(f, i, g, j, g[j..], arg, render);
      }
    }
  }

  lemma {:induction false} ConversionSuffix(f: seq<byte>, i: nat, g: seq<byte>, j: nat, h: seq<byte>, arg: nat,
                                            render: Render)
    requires i <= |f| && g == f[i..] && j < |g| && h == g[j..] && g[j] == PERCENT != At(g, j + 1)
    ensures Expanded(f, i + j, arg, render) == Expanded(g, j, arg, render)
    decreases |f| - i - j, 0
  {
    assert h == f[i + j..];
    if Complete(h) {
      CompleteIsInside(h);
      ExpandedSuffix(f, i, j + Scan(h).length + 1, NextArg(g, j, arg), render);
    }
  }

  lemma PlainExpands(c: byte, rest: seq<byte>, f: seq<byte>, at: nat, arg: nat, render: Render)
    requires at == 0 && c != PERCENT && f == [c] + rest
    ensures Expanded(f, at, arg, render) == Then([c], Expanded(rest, at, arg, render))
  {
    assert f[at + 1..] == rest;
    ExpandedSuffix(f, at + 1, at, arg, render);
  }

  lemma PercentExpands(rest: seq<byte>, f: seq<byte>, at: nat, arg: nat, render: Render)
    requires at == 0 && f == [PERCENT, PERCENT] + rest
    ensures Expanded(f, at, arg, render) == Then([PERCENT], Expanded(rest, at, arg, render))
  {
    assert f[at + 2..] == rest;
    ExpandedSuffix(f, at + 2, at, arg, render);
  }

  lemma NoSecondPercent(s: Specification)
    requires s.Valid()
    ensures |s.Text()| >= 2 && s.Text()[0] == PERCENT && s.Text()[1] != PERCENT
  {
    var after := s.flags + s.AfterFlags();
    assert s.Text()[1] == after[0];
    assert after[0] == if s.flags != [] then s.flags[0] else s.AfterFlags()[0];
    assert s.AfterFlags()[0] == if s.width != [] then s.width[0] else s.AfterWidth()[0];
  }

  lemma ExpandedConversion(f: seq<byte>, i: nat, g: seq<byte>, arg: nat, render: Render, c: Conversion, n: nat)
    requires i + 1 < |f| && f[i] == PERCENT != f[i + 1] && g == f[i..]
    requires Complete(g) && c == Converted(g) && n == Scan(g).length + 1
    ensures Expanded(f, i, arg, render)
         == if c.kind.Nothing? then Expanded(f, i + n, arg, render)
            else Then(render(c, arg), Expanded(f, i + n, arg + 1, render))
  {
    ThenNothing(Expanded(f, i + n, NextArg(f, i, arg), render));
  }

  lemma ThenNothing(after: Option<seq<byte>>)
    ensures Then([], after) == after
  {
    if after.Some? {
      assert [] + after.value == after.value;
    }
  }

  lemma SingleExpands(spec: Specification, rest: seq<byte>, f: seq<byte>, at: nat, arg: nat, render: Render,
                      c: Conversion)
    requires at == 0 && spec.Valid() && f == spec.Text() + rest
    requires Complete(spec.Text()) && c == Converted(spec.Text())
    ensures Expanded(f, at, arg, render)
         == if c.kind.Nothing? then Expanded(rest, at, arg, render)
            else Then(render(c, arg), Expanded(rest, at, arg + 1, render))
  {
    var n := |spec.Text()|;
    ConvertedAlone(spec, rest);
    NoSecondPercent(spec);
    assert f[at..] == f && f[at] == PERCENT && f[at + 1] == spec.Text()[1];
    ExpandedConversion(f, at, f, arg, render, c, n);
    assert f[n..] == rest;
    ExpandedSuffix(f, n, at, if c.kind.Nothing? then arg else arg + 1, render);
  }

  /** What the first piece stands for, and the number of the argument after it. */
  ghost function FirstMeaning(t: Token, arg: nat, render: Render): (seq<byte>, nat)
    requires t.Valid()
  {
    match t
    case Plain(c) => ([c], arg)
    case Percent => (['%' as int], arg)
    case Single(spec) => if In(spec.conversion, "n") then ([], arg) else (render(spec.Meant(), arg), arg + 1)
  }

  lemma NothingIsN(spec: Specification)
    requires spec.Valid()
    ensures spec.LetterKind().Nothing? <==> In(spec.conversion, "n")
  {
    CharacterClasses(spec.conversion);
  }

  lemma FirstExpands(t: Token, rest: seq<byte>, f: seq<byte>, at: nat, arg: nat, render: Render)
    requires t.Valid() && f == t.Text() + rest && at == 0
    ensures var (text, next) := FirstMeaning(t, arg, render);
      Expanded(f, at, arg, render) == Then(text, Expanded(rest, at, next, render))
  {
    match t
    case Plain(c) => PlainExpands(c, rest, f, at, arg, render);
    case Percent => PercentExpands(rest, f, at, arg, render);
    case Single(spec) =>
      ConvertedMeans(spec);
      var c := Converted(spec.Text());
      NothingIsN(spec);
      SingleExpands(spec, rest, f, at, arg, render, c);
      ThenNothing(Expanded(rest, at, arg, render));
  }

  /** The reference gives every row of pieces its meaning. */
  lemma {:induction false} ExpandedIsMeaning(tokens: seq<Token>, f: seq<byte>, at: nat, arg: nat, render: Render)
    requires AllValid(tokens) && f == Flat(tokens) && at == 0
    ensures Expanded(f, at, arg, render) == Some(Meaning(tokens, arg, render))
    decreases |tokens|
  {
    if tokens != [] {
      FirstExpands(tokens[0], Flat(tokens[1..]), f, at, arg, render);
      ExpandedIsMeaning(tokens[1..], Flat(tokens[1..]), at, FirstMeaning(tokens[0], arg, render).1, render);
    }
  }

  /** Only rows of pieces are accepted. */
  lemma {:induction false} AcceptedIsFlat(f: seq<byte>, at: nat, arg: nat, render: Render) returns (tokens: seq<Token>)
    requires NUL !in f && at == 0 && Expanded(f, at, arg, render).Some?
    ensures AllValid(tokens) && Flat(tokens) == f
    decreases |f|
  {
    if f == [] {
      return [];
    }
    var t, next := FirstToken(f, at, arg, render);
    var n := |t.Text()|;
    assert f == t.Text() + f[n..];
    ExpandedSuffix(f, n, at, next, render);
    var rest := AcceptedIsFlat(f[n..], at, next, render);
    tokens := [t] + rest;
    assert tokens[1..] == rest;
  }

  lemma FirstToken(f: seq<byte>, at: nat, arg: nat, render: Render) returns (t: Token, next: nat)
    requires f != [] && NUL !in f && at == 0 && Expanded(f, at, arg, render).Some?
    ensures t.Valid() && 0 < |t.Text()| && t.Text() <= f && Expanded(f, |t.Text()|, next, render).Some?
  {
    if f[0] != PERCENT {
      return Plain(f[0]), arg;
    } else if At(f, 1) == PERCENT {
      return Percent, arg;
    }
    ConversionExpands(f, at, arg, render);
    t := ConversionToken(f);
    next := NextArg(f, at, arg);
  }

  lemma ConversionToken(f: seq<byte>) returns (t: Token)
    requires f != [] && f[0] == PERCENT && Complete(f)
    ensures t.Valid() && |t.Text()| == Scan(f).length + 1 && t.Text() <= f
  {
    ScanIsText(f);
    t := Single(SpecificationOf(f));
  }

  lemma ConversionExpands(f: seq<byte>, at: nat, arg: nat, render: Render)
    requires f != [] && f[0] == PERCENT != At(f, 1) && at == 0 && Expanded(f, at, arg, render).Some?
    ensures Complete(f) && Expanded(f, Scan(f).length + 1, NextArg(f, at, arg), render).Some?
  {
    assert f[0..] == f;
  }

  /** No conversion that is reached from `i` on is longer than the buffer for one. */
  ghost predicate ShortFrom(f: seq<byte>, i: nat)
    decreases |f| - i
  {
    if i >= |f| then true
    else if f[i] != PERCENT then ShortFrom(f, i + 1)
    else if At(f, i + 1) == PERCENT then ShortFrom(f, i + 2)
    else
      Scan(f[i..]).length <= 30 && (Complete(f[i..]) ==> ShortFrom(f, i + Scan(f[i..]).length + 1))
  }

  lemma ShortOn(f: seq<byte>, i: nat)
    requires i < |f| && ShortFrom(f, i)
    ensures f[i] != PERCENT ==> ShortFrom(f, i + 1)
    ensures f[i] == PERCENT == At(f, i + 1) ==> ShortFrom(f, i + 2)
    ensures f[i] == PERCENT != At(f, i + 1) ==>
      Scan(f[i..]).length <= 30 && (Complete(f[i..]) ==> ShortFrom(f, i + Scan(f[i..]).length + 1))
  {
  }

  /** A log stream, and the buffer that formats are cut in. */
  class Stream {
    var message: seq<byte>
    const format: array<byte>       // DeepFuzzy_Format

    ghost predicate Valid()
      reads this
    {
      format.Length == STREAM_SIZE + 1 && |message| < STREAM_SIZE
    }

    constructor ()
      ensures Valid() && fresh(format) && message == []
    {
      message := [];
      format := new byte[STREAM_SIZE + 1](_ => NUL);
    }

    /** The end of each streaming function; without room, the test is abandoned. */
    method Append(text: seq<byte>) returns (ok: bool)
      requires Valid()
      modifies `message
      ensures Valid() && ok == (|old(message)| + |text| < STREAM_SIZE)
      ensures message == if ok then old(message) + text else old(message)
    {
      ok := |message| + |text| < STREAM_SIZE;
      if ok {
        message := message + text;
      }
    }

    /** The buffer holds the format and the NUL after it. */
    ghost predicate Holds(f: seq<byte>)
      reads this, format
    {
      |f| < format.Length && format[..|f|] == f && format[|f|] == NUL
    }

    lemma HeldAt(f: seq<byte>, i: nat)
      requires Holds(f) && i < |f|
      ensures i + 1 < format.Length && format[i] == f[i] && format[i + 1] == At(f, i + 1)
    {
      assert format[i] == format[..|f|][i] && (i + 1 < |f| ==> format[i + 1] == format[..|f|][i + 1]);
    }

    /** A piece of the format, with the character after it punched out. */
    method StreamPiece(f: seq<byte>, begin: nat, end: nat) returns (ok: bool)
      requires Valid() && Holds(f) && NUL !in f && begin <= end < |f|
      modifies `message, format
      ensures Valid() && Holds(f) && ok == (|old(message)| + (end + 1 - begin) < STREAM_SIZE)
      ensures message == if ok then old(message) + f[begin..end + 1] else old(message)
    {
      ghost var before := format[..];
      var nextCh := format[end + 1];
      format[end + 1] := NUL;
      PieceAt(before, format[..], f, begin, end);
      ok := Append(CString(format[..], begin));
      format[end + 1] := nextCh;
      assert format[..] == before && before[..|f|] == f;
    }

    /** The literal text before a conversion, if any. */
    method StreamLiteral(f: seq<byte>, begin: Option<nat>, end: Option<nat>, i: nat) returns (ok: bool)
      requires Valid() && Holds(f) && NUL !in f && i < |f| && Pending(begin, end, i)
      modifies `message, format
      ensures Valid() && Holds(f) && ok == (|old(message)| + |Literal(f, begin, i)| < STREAM_SIZE)
      ensures message == if ok then old(message) + Literal(f, begin, i) else old(message)
    {
      ok := true;
      if end.Some? {
        ok := StreamPiece(f, begin.value, end.value);
      }
    }

    /** A conversion, with its argument if it has one. */
    method StreamConversion(f: seq<byte>, i: nat, arg: nat, render: Render) returns (ok: bool, next: nat, nextArg: nat)
      requires Valid() && i < |f| && f[i] == PERCENT && Scan(f[i..]).length <= 30
      modifies `message
      ensures Valid() && ok == (Complete(f[i..]) && |old(message)| + |Rendered(f, i, arg, render)| < STREAM_SIZE)
      ensures ok ==> message == old(message) + Rendered(f, i, arg, render)
      ensures ok ==> next == i + Scan(f[i..]).length + 1 && nextArg == NextArg(f, i, arg)
    {
      next, nextArg := i, arg;
      var n, conversion;
      ok, n, conversion := FormatValue(f[i..]);
      if ok {
        next := i + n;
        if !conversion.kind.Nothing? {
          ok := Append(render(conversion, arg));
          nextArg := arg + 1;
        }
      }
    }

    /** The copy of the format that is cut. */
    method CopyFormat(f: seq<byte>)
      requires Valid() && |f| < STREAM_SIZE
      modifies format
      ensures Valid() && Holds(f)
    {
      for i := 0 to |f|
        invariant format[..i] == f[..i]
      {
        format[i] := f[i];
      }
      format[|f|] := NUL;
    }

    /** `%%`: the literal text in hand goes out with one percent sign. */
    method TakePercent(f: seq<byte>, begin: nat, i: nat, ghost at: Progress, render: Render)
      returns (ok: bool, ghost next: Progress)
      requires Valid() && Holds(f) && NUL !in f && i < |f| && f[i] == PERCENT == At(f, i + 1)
      requires Standing(at, f, Some(begin), i, render) && message == at.start + at.done && ShortFrom(f, i)
      modifies `message, format
      ensures Valid() && Holds(f) && (!ok ==> !Fits(at.start, at.whole))
      ensures next == at.(done := next.done) && (ok ==> message == next.start + next.done)
      ensures ok ==> Standing(next, f, None, i + 2, render) && ShortFrom(f, i + 2)
    {
      ShortOn(f, i);
      PercentStep(at, f, begin, i, render);
      Assoc(at.start, at.done, f[begin..i + 1]);
      next := at.(done := at.done + f[begin..i + 1]);
      ok := StreamPiece(f, begin, i);
    }

    /** A conversion: the literal text in hand, and what the conversion makes. */
    method TakeConversion(f: seq<byte>, begin: Option<nat>, end: Option<nat>, i: nat, ghost at: Progress, arg: nat,
                          render: Render)
      returns (ok: bool, next: nat, nextArg: nat, ghost onward: Progress)
      requires Valid() && Holds(f) && NUL !in f && i < |f| && f[i] == PERCENT != At(f, i + 1)
      requires ShortFrom(f, i) && Pending(begin, end, i) && arg == at.arg
      requires Standing(at, f, begin, i, render) && message == at.start + at.done
      modifies `message, format
      ensures Valid() && Holds(f) && (!ok ==> !Fits(at.start, at.whole))
      ensures onward == at.(done := onward.done, arg := nextArg)
      ensures ok ==> message == at.start + onward.done && i < next
      ensures ok ==> Standing(onward, f, None, next, render) && ShortFrom(f, next)
    {
      ShortOn(f, i);
      next, nextArg, onward := i, arg, at;
      ghost var before, n := at.done + Literal(f, begin, i), Scan(f[i..]).length;
      ghost var rendered := if Complete(f[i..]) then Rendered(f, i, arg, render) else [];
      ConversionStep(at, f, begin, i, render);
      Assoc(at.start, at.done, Literal(f, begin, i));
      ok := StreamLiteral(f, begin, end, i);
      if ok {
        assert message == at.start + before;
        ok, next, nextArg := StreamConversion(f, i, arg, render);
        Assoc(at.start, before, rendered);
        onward := at.(done := before + rendered, arg := nextArg);
      }
    }

    /** The loop of DeepFuzzy_StreamVFormat, up to the literal text at the end. */
    method Cut(f: seq<byte>, render: Render, ghost start: Progress)
      returns (ok: bool, begin: Option<nat>, ghost at: Progress)
      requires Valid() && Holds(f) && NUL !in f && ShortFrom(f, 0) && start.arg == 0
      requires Standing(start, f, None, 0, render) && message == start.start + start.done
      modifies `message, format
      ensures Valid() && Holds(f) && at.start == start.start && at.whole == start.whole
      ensures !ok ==> !Fits(at.start, at.whole)
      ensures ok ==> Standing(at, f, begin, |f|, render) && message == at.start + at.done
    {
      at, ok, begin := start, true, None;
      var end: Option<nat> := None;
      var i: nat, arg: nat := 0, 0;
      while i < |f|
        invariant Valid() && Holds(f) && message == at.start + at.done && at.arg == arg
        invariant at.start == start.start && at.whole == start.whole && ok
        invariant Pending(begin, end, i) && Standing(at, f, begin, i, render) && ShortFrom(f, i)
      {
        if begin.None? {
          BeginHere(at, f, i, render);
          begin := Some(i);
        }
        HeldAt(f, i);
        if format[i] == PERCENT {
          if format[i + 1] == PERCENT {
            ok, at := TakePercent(f, begin.value, i, at, render);
            i := i + 2;
          } else {
            ok, i, arg, at := TakeConversion(f, begin, end, i, at, arg, render);
          }
          if !ok {
            return;
          }
          begin, end := None, None;
        } else {
          LiteralStep(at, f, begin.value, i, render);
          end := Some(i);
          i := i + 1;
        }
      }
    }

    /** DeepFuzzy_StreamVFormat.  Without success, the test is abandoned. */
    method VFormat(f: seq<byte>, render: Render) returns (ok: bool)
      requires Valid() && NUL !in f && ShortFrom(f, 0)
      modifies `message, format
      ensures Valid()
      ensures ok <==> |f| < STREAM_SIZE && Fits(old(message), Expanded(f, 0, 0, render))
      ensures ok ==> message == old(message) + Expanded(f, 0, 0, render).value
    {
      if |f| >= STREAM_SIZE {
        return false;
      }
      CopyFormat(f);
      ghost var at := Progress(Expanded(f, 0, 0, render), message, [], 0);
      AtStart(at, f, render);
      var begin;
      ok, begin, at := Cut(f, render, at);
      if ok {
        AtEnd(at, f, begin, |f|, render);
        if begin.Some? {
          WholeRest(format[..], f, begin.value);
          Assoc(at.start, at.done, f[begin.value..]);
          ok := Append(CString(format[..], begin.value));
        }
      }
    }
  }

  // ----- why the loop is right

  ghost predicate Fits(message: seq<byte>, text: Option<seq<byte>>) {
    text.Some? && |message| + |text.value| < STREAM_SIZE
  }

  /** The pointers to the literal text in hand: both set, around it, or none. */
  ghost predicate Pending(begin: Option<nat>, end: Option<nat>, i: nat) {
    if end.None? then begin.None? || begin == Some(i) else begin.Some? && begin.value <= end.value && end.value + 1 == i
  }

  ghost function Literal(f: seq<byte>, begin: Option<nat>, i: nat): seq<byte>
    requires i <= |f| && (begin.Some? ==> begin.value <= i)
  {
    if begin.None? then [] else f[begin.value..i]
  }

  /** The whole expansion, the message it is appended to, what of it is appended
      already, and the number of the next argument. */
  datatype Progress = Progress(whole: Option<seq<byte>>, start: seq<byte>, done: seq<byte>, arg: nat)

  /** What is done, the literal in hand and the rest make up the whole expansion. */
  ghost predicate Standing(at: Progress, f: seq<byte>, begin: Option<nat>, i: nat, render: Render) {
    i <= |f| && (begin.Some? ==> begin.value <= i)
    && at.whole == Then(at.done + Literal(f, begin, i), Expanded(f, i, at.arg, render))
  }

  lemma AtStart(at: Progress, f: seq<byte>, render: Render)
    requires at.whole == Expanded(f, 0, at.arg, render) && at.done == []
    ensures Standing(at, f, None, 0, render)
  {
    assert at.done + Literal(f, None, 0) == [];
    ThenNothing(at.whole);
  }

  lemma AtEnd(at: Progress, f: seq<byte>, begin: Option<nat>, i: nat, render: Render)
    requires Standing(at, f, begin, i, render) && i == |f|
    ensures at.whole == Some(at.done + if begin.Some? then f[begin.value..] else [])
  {
    var text := at.done + Literal(f, begin, i);
    assert text + [] == text;
    if begin.Some? {
      assert f[begin.value..i] == f[begin.value..];
    }
  }

  lemma BeginHere(at: Progress, f: seq<byte>, i: nat, render: Render)
    requires Standing(at, f, None, i, render)
    ensures Standing(at, f, Some(i), i, render)
  {
    assert f[i..i] == [];
  }

  lemma LiteralStep(at: Progress, f: seq<byte>, begin: nat, i: nat, render: Render)
    requires i < |f| && f[i] != PERCENT && Standing(at, f, Some(begin), i, render) && ShortFrom(f, i)
    ensures Standing(at, f, Some(begin), i + 1, render) && ShortFrom(f, i + 1)
  {
    ThenThen(at.done + f[begin..i], [f[i]], Expanded(f, i + 1, at.arg, render));
    assert at.done + f[begin..i] + [f[i]] == at.done + f[begin..i + 1];
  }

  lemma PercentStep(at: Progress, f: seq<byte>, begin: nat, i: nat, render: Render)
    requires i < |f| && f[i] == PERCENT == At(f, i + 1) && Standing(at, f, Some(begin), i, render)
    ensures Standing(at.(done := at.done + f[begin..i + 1]), f, None, i + 2, render)
    ensures |at.start| + |at.done| + (i + 1 - begin) >= STREAM_SIZE ==> !Fits(at.start, at.whole)
  {
    var done := at.done + f[begin..i + 1];
    ThenThen(at.done + f[begin..i], [PERCENT], Expanded(f, i + 2, at.arg, render));
    assert at.done + f[begin..i] + [PERCENT] == done;
    assert done + [] == done;
  }

  lemma ConversionStep(at: Progress, f: seq<byte>, begin: Option<nat>, i: nat, render: Render)
    requires i < |f| && f[i] == PERCENT != At(f, i + 1) && Standing(at, f, begin, i, render)
    ensures var before := at.done + Literal(f, begin, i);
      && (|at.start| + |before| >= STREAM_SIZE ==> !Fits(at.start, at.whole))
      && (!Complete(f[i..]) ==> at.whole.None?)
      && (Complete(f[i..]) ==>
            Standing(at.(done := before + Rendered(f, i, at.arg, render), arg := NextArg(f, i, at.arg)),
                     f, None, i + Scan(f[i..]).length + 1, render)
            && (|at.start| + |before| + |Rendered(f, i, at.arg, render)| >= STREAM_SIZE ==> !Fits(at.start, at.whole)))
  {
    if Complete(f[i..]) {
      CompleteIsInside(f[i..]);
      var (before, rendered) := (at.done + Literal(f, begin, i), Rendered(f, i, at.arg, render));
      ThenThen(before, rendered, Expanded(f, i + Scan(f[i..]).length + 1, NextArg(f, i, at.arg), render));
      assert before + rendered + [] == before + rendered;
    }
  }

  lemma PieceAt(before: seq<byte>, text: seq<byte>, f: seq<byte>, begin: nat, end: nat)
    requires begin <= end < |f| < |before| && NUL !in f && before[..|f|] == f
    requires text == before[end + 1 := NUL]
    ensures CString(text, begin) == f[begin..end + 1]
  {
    assert forall k :: begin <= k <= end ==> text[k] == before[k] == before[..|f|][k] == f[k];
    assert text[begin..end + 1] == f[begin..end + 1];
    CStringIs(text, begin, f[begin..end + 1]);
  }

  lemma WholeRest(text: seq<byte>, f: seq<byte>, begin: nat)
    requires begin <= |f| < |text| && NUL !in f && text[..|f|] == f && text[|f|] == NUL
    ensures CString(text, begin) == f[begin..]
  {
    assert text[begin..|f|] == text[..|f|][begin..] == f[begin..];
    CStringIs(text, begin, f[begin..]);
  }
}
