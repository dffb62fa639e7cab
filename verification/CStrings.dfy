/** Strings of C: what a position in a buffer denotes, up to a NUL or the end. */
module CStrings {
  import opened Words

  const NUL: byte := 0

  /** The string at a position of the buffer. */
  function CString(text: seq<byte>, at: nat): (s: seq<byte>)
    requires at <= |text|
    ensures at + |s| <= |text|
    decreases |text| - at
  {
    if at == |text| || text[at] == NUL then [] else [text[at]] + CString(text, at + 1)
  }

  /** The string at a position is already ended by a NUL. */
  predicate Closed(text: seq<byte>, at: nat) {
    at <= |text| && at + |CString(text, at)| < |text|
  }

  lemma {:induction false} ClosedStays(text: seq<byte>, more: seq<byte>, at: nat)
    requires Closed(text, at)
    ensures CString(text + more, at) == CString(text, at) && Closed(text + more, at)
    decreases |text| - at
  {
    if text[at] != NUL {
      ClosedStays(text, more, at + 1);
    }
  }

  lemma {:induction false} NulCloses(text: seq<byte>, at: nat)
    requires at <= |text|
    ensures CString(text + [NUL], at) == CString(text, at) && Closed(text + [NUL], at)
    decreases |text| - at
  {
    if at < |text| && text[at] != NUL {
      NulCloses(text, at + 1);
    }
  }

  lemma {:induction false} CStringIs(text: seq<byte>, at: nat, s: seq<byte>)
    requires at + |s| <= |text| && text[at..at + |s|] == s && NUL !in s
    requires at + |s| == |text| || text[at + |s|] == NUL
    ensures CString(text, at) == s
    decreases |s|
  {
    if s != [] {
      assert text[at] == s[0];
      assert text[at + 1..at + |s|] == s[1..];
      CStringIs(text, at + 1, s[1..]);
    }
  }

  lemma Assoc(a: seq<byte>, b: seq<byte>, c: seq<byte>)
    ensures a + b + c == a + (b + c)
  {
  }

  /** A string does not depend on what is before it. */
  lemma {:induction false} StringShift(a: seq<byte>, t: seq<byte>, at: nat)
    requires at <= |t|
    ensures CString(a + t, |a| + at) == CString(t, at)
    decreases |t| - at
  {
    if at < |t| && t[at] != NUL {
      StringShift(a, t, at + 1);
    }
  }

  /** A string that starts a text, up to the end or a NUL. */
  lemma FirstString(s: seq<byte>, after: seq<byte>)
    requires NUL !in s && (after == [] || after[0] == NUL)
    ensures CString(s + after, 0) == s
  {
    CStringIs(s + after, 0, s);
  }

  lemma ShiftTwice(a: seq<byte>, b: seq<byte>, t: seq<byte>, at: nat)
    requires at <= |t|
    ensures CString(a + (b + t), |a| + |b| + at) == CString(t, at)
  {
    StringShift(a, b + t, |b| + at);
    StringShift(b, t, at);
  }
}
