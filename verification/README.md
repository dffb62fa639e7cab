# A verified model of DeepFuzzy's core

DeepFuzzy feeds a test harness with values decoded from one byte tape, records the
tape, replays it and shrinks failing tapes.  This project models that core in Dafny
and proves what its parts promise each other.

A harness is a deterministic program that sees only what the API returns: a tree of
calls (`Programs.Program`) with one semantics, `Programs.Execute`, that gives the
values returned, the lines `--verbose_reads` prints, the harness's own output, the
bytes consumed and the way it ends.  Everything about tapes is stated for all such
harnesses and all tapes.

| file | what it models |
|---|---|
| `Words.dfy` | the C integer types, clamping into a range, big-endian numbers |
| `Programs.dfy` | harnesses, runs, which bytes a run depends on, truncation of a test |
| `Replies.dfy` | what each call does, byte by byte, and a run as a row of calls |
| `Tape.dfy` | the global input buffer and every API call that consumes it; record and replay |
| `RangeRewrite.dfy` | the reducer's parser of conversion lines and its rewrite of converted reads |
| `Structure.dfy` | the reducer's OneOf trace parser and its delimiter structure |
| `Calls.dfy` | which calls the parser's stack holds and which cuts it yields, on every log |
| `Candidates.dfy` | the candidates of every pass, the order that accepted ones lower, swaps |
| `Parts.dfy` | what it means that no candidate is left, told by the parts of the test |
| `Reducer.dfy` | the reducer itself: every pass, the main loop, truncation, padding |
| `Scripts.dfy` | straight-line harnesses, for the next two |
| `SwapCycle.dfy` | a harness on which the swap pass never ends |
| `NestedFirst.dfy` | a harness on which the reducer stops at a test that can still be cut |
| `Swarm.dfy`, `SwarmTable.dfy` | swarm configurations, their memo table, record and replay with them |
| `SwarmDraws.dfy` | which configuration a lookup finds and a drawing draws, told by the tape |
| `Strings.dfy` | generated C strings |
| `Search.dfy` | the two ASSIGN_SATISFYING searches |
| `Verdicts.dfy` | the native verdict machine and the symbolic one |
| `Symex.dfy` | minimising the saved input, Pump, the signed minimum |
| `CStrings.dfy` | strings in a buffer, for the next three |
| `Options.dfy` | the option lexer |
| `OptionLines.dfy` | a grammar of option lines, which the lexer follows on every line |
| `Format.dfy` | the printf splitter |
| `Ensemble.dfy` | seed exchange between fuzzers as interleaved copies |

Where the source changes state step by step, the model is a class or a method with
the same fields and loops, proved equal to a specification function; the theorems are
about those functions.  What each specification function computes is stated once more
without it: by parts of the test, bytes of the tape, characters, lines or directories.

## What is proved, and where the code falls short

- The reducer's unchecked rewrite after an accepted candidate is safe for every
  harness and tape: the rewritten tape gives the same values, read positions, output
  and exit (`RangeRewrite.RewritePreservesMeaning`).  The result of a whole reduction
  therefore satisfies the criterion at whatever moment the time limit strikes, and
  after padding, unless it is still the truncated first test and the truncation
  dropped an odd boolean.
- A reduction that stops by itself, before its time limit or without one, stops at a
  test that no enabled pass can reduce (`Reducer.Reducer.Reduce`).  This is said of the
  parts of the test (`Parts.Irreducible`): without any one, four or eight bytes, with
  any byte lowered, or after any other change that a pass makes, it fails the criterion.
  The conditions are that it does not still stand at a truncated first test that lost
  something, and that no test up to the weight of the first can grow.  Swaps that go up
  do not matter: in length and sum of bytes a swap keeps the weight of its test, and the
  other candidates are lighter.
- A test can grow where a OneOf call nests before it reads, or reads nothing: its
  stretch can then start at -1, which Python takes as the last byte.  The failing guard
  is exact: a cut lengthens the test if and only if it starts at -1 and at least two
  bytes come after its stop (`Candidates.CutLengthensExactly`, `Candidates.EdgesLengthenExactly`).  If the last
  byte is not read, such a cut is always accepted and leaves a longer test of the same
  kind, on every harness (`Candidates.CutGrows`).  `NestedFirst.StopsUnreduced` gives a
  harness on which a round lengthens a test, shortens it again and ends where it began,
  so that the reducer stops although the test can be cut.  A call that nests first but
  reads later does no harm (`NestedFirst.LaterStartsInside`), though its cut misses the
  bytes of the nested one (`Structure.CallCutExactly`).
- Truncating a test after its last read line is not always safe, because boolean reads
  print another line.  It changes a returned value exactly when an odd byte beyond the
  last ordinary read was read as a boolean (`Programs.TruncationExact`, with a failing
  harness in `Programs.TruncationCanBreak`).
- An accepted swap lowers the test exactly under the condition of
  `Candidates.SwapLowersExactly`.  When one stretch is a prefix of the other it can
  raise it, and `SwapCycle.SwapPassNeverEnds` gives a harness whose swap pass is
  reached and always has a satisfying candidate.
- A run with a memo table of swarm configurations is a run of a harness without one,
  and its returned values determine the table (`SwarmTables.SwarmTable.Play`).  So
  replay rebuilds identical configurations (`SwarmTables.RecordAndReplay`).  Every
  stored map stays usable, and the strings drawn through it hold only allowed
  characters.
- The verdict of the native runner and that of the symbolic front end are both read off
  the events of a test (`Verdicts.NativeVerdict`, `Verdicts.FrontendVerdict`).  They
  agree on all tests of a class exactly when the class drops no error lines, flushes no
  ERROR or FATAL stream that holds only empty pieces, and lets no stream overflow
  (`Verdicts.VerdictsAgree`); each of the four exclusions has its witness.  An empty
  piece in a stream that holds something else is allowed
  (`Verdicts.EmptyPieceIsHarmless`).
- On every line the lexer finds the options that a grammar of lines does
  (`OptionLines.LineReads`).  Option values come back from it exactly when none starts
  with a space and no separate one with a dash (`Options.ReadBackExactly`).
- One completed synchronisation cycle of a fuzzer need not bring a seed to the shared
  queue, because the copies are not awaited (`Ensemble.OneCycleIsNotEnough`).  It does
  exactly when its second copy makes its list after the seed is in the push queue
  (`Ensemble.OneCycleIsEnoughExactly`); two cycles always do (`Ensemble.SeedsArrive`).
  Crashes and seeds never mix (`Ensemble.KindsStayApart`).
- `%n` is accepted by the printf splitter but takes no argument, unlike in C; the
  reference expansion in `Format.Expanded` does what the code does.
- The comment at the abandoned case of the runner says that soft failures are caught
  first.  The code lets abandonment overwrite them, and so does the model.

## Model

| member | source | states |
|---|---|---|
| `Words.IntType.FromUnsigned` | src/include/deepfuzzy/DeepFuzzy.h:138-148 | the cast to a signed type holds in the type and casting back gives the number |
| `Words.SignedKeepsBits` | src/include/deepfuzzy/DeepFuzzy.h:138-148 | the cast to the unsigned type changes a number by a multiple of 2^width, and leaves alone what both types hold |
| `Words.UnsignedKeepsBits` | src/include/deepfuzzy/DeepFuzzy.h:138-148 | so does the cast back |
| `Words.InRangeInBounds` | src/include/deepfuzzy/DeepFuzzy.h:389-430 | InRange lies between the bounds in either order, is the raw value if that is inside, and otherwise the exact remainder or `high`; a conversion is reported exactly when the reinterpreted remainder is not negative |
| `Words.ClampSettles` | src/include/deepfuzzy/DeepFuzzy.h:414-430 | clamping a clamped value changes nothing |
| `Words.BigEndianFits` | src/lib/DeepFuzzy.c:511-531 | a multi-byte read fits its type |
| `Words.BigEndianOrder` | bin/deepfuzzy/executors/auxiliary/reducer.py:526-532 | lowering the first byte that changes lowers the big-endian value |
| `Programs.SameBytesSameRun` | src/include/deepfuzzy/DeepFuzzy.h:105 | a run depends only on the bytes it consumes, and bytes past the file are zero |
| `Programs.ReplayRepeats` | src/lib/DeepFuzzy.c:787-797 | replaying the consumed prefix repeats values, log, output, index and exit |
| `Programs.PaddingRepeats` | bin/deepfuzzy/executors/auxiliary/reducer.py:614-618 | trailing zeros do not change a run |
| `Programs.ExecuteIncreasing` | src/lib/DeepFuzzy.c:499-531 | the logged read positions increase and lie before the final index |
| `Programs.TruncationExact` | bin/deepfuzzy/executors/auxiliary/reducer.py:285-289 | dropping the bytes after the last ordinary read keeps the returned values if and only if no odd dropped byte was read as a boolean, and then keeps the whole run |
| `Programs.TruncationCanBreak` | src/lib/DeepFuzzy.c:499-507 | a harness and a failing tape whose truncation no longer fails |
| `Replies.BoolReply` | src/lib/DeepFuzzy.c:499-507 | a boolean reads one byte and is its last bit; the input is used up exactly when that byte is beyond 32768 |
| `Replies.ByteReply` | src/lib/DeepFuzzy.c:176-223 | a character reads one byte, and a zero byte as 1 where NUL is not allowed |
| `Replies.WordReply` | src/lib/DeepFuzzy.c:511-531 | an integer of n bytes reads the next n positions in order and no others, abandons exactly when they go beyond the input, and has the bits of their big-endian number |
| `Replies.RangeReply` | src/include/deepfuzzy/DeepFuzzy.h:389-430 | equal bounds read nothing; otherwise as many bytes as the type has, and the value drawn is returned, or brought into the range by its remainder and printed, or is `high` where that sum overflows |
| `Replies.ExecuteIsItsTurns` | src/include/deepfuzzy/DeepFuzzy.h:105 | a run is what its calls make one after another: values, lines and output in order, ended by the harness, by a missing branch or an unstarted OneOf call, or by the end of the input |
| `Tape.InputTape.ReadByte` | src/include/deepfuzzy/DeepFuzzy.h:105 | the byte read is that of the tape: the loaded one, a fresh random one that is stored, or zero |
| `Tape.InputTape.ReadWord` | src/lib/DeepFuzzy.c:511-531 | the loop of shifts is the big-endian number of the bytes |
| `Tape.InputTape.Symbol` | src/lib/DeepFuzzy.c:511-531 | the value of an integer read, signed types included |
| `Tape.InputTape.Serve` | src/lib/DeepFuzzy.c:176-223 | every call answers as the semantics of harnesses says, and moves the index by what it used |
| `Tape.InputTape.ServeRange` | src/include/deepfuzzy/DeepFuzzy.h:389-430 | an InRange call orders its bounds, reads nothing if they are equal, and answers as specified |
| `Tape.InputTape.ConvertIntoRange` | src/include/deepfuzzy/DeepFuzzy.h:408-430 | the checked subtraction, additions and casts compute the clamp, which is in bounds |
| `Tape.InputTape.Play` | src/lib/DeepFuzzy.c:499-531 | running a harness on the buffer gives the run that the semantics assigns to the tape |
| `Tape.InputTape.Load` | src/lib/DeepFuzzy_UNIX.c:240-259 | after loading, the tape agrees with the file on the buffer and is zero beyond, at index 0 |
| `Tape.InputTape.StartFuzzing` | src/lib/DeepFuzzy.c:944-952 | after the reset, the tape is the random stream to come |
| `Tape.InputTape.Save` | src/lib/DeepFuzzy.c:787-797 | the saved file is the consumed prefix |
| `Tape.RecordAndReplay` | src/lib/DeepFuzzy.c:944-952 | a fuzzing run, saved and replayed elsewhere, is repeated exactly, and the file holds the bytes drawn |
| `RangeRewrite.RangeConversions` | bin/deepfuzzy/executors/auxiliary/reducer.py:233-251 | the line parser equals the specification on every log it can read |
| `RangeRewrite.ParseRun` | bin/deepfuzzy/executors/auxiliary/reducer.py:233-251 | every log of a run can be read, and what is read is exactly the converted reads with their positions |
| `RangeRewrite.ConversionsArePrinted` | bin/deepfuzzy/executors/auxiliary/reducer.py:233-251 | the conversions read off a run are its printed conversion lines, all of them, each with the positions of the integer read just before |
| `RangeRewrite.FixRangeConversions` | bin/deepfuzzy/executors/auxiliary/reducer.py:253-266 | the rewrite in place equals the function that the next two rows are about |
| `RangeRewrite.FixRewrites` | bin/deepfuzzy/executors/auxiliary/reducer.py:257-264 | every conversion to a value from 0 to 254 below the last byte read is put on the tape after zeros, and no other byte changes |
| `RangeRewrite.RewriteIsComplete` | bin/deepfuzzy/executors/auxiliary/reducer.py:233-266 | so is every such conversion of a run, and the rewritten run prints none of the kind |
| `RangeRewrite.FixLowers` | bin/deepfuzzy/executors/auxiliary/reducer.py:260-264 | a rewrite that changes a test lowers it |
| `RangeRewrite.RewritePreservesMeaning` | bin/deepfuzzy/executors/auxiliary/reducer.py:300-307 | for every harness and tape the rewritten tape gives the same values, output, index, exit and reads; rewriting is idempotent |
| `Structure.OneOfCalls` | bin/deepfuzzy/executors/auxiliary/reducer.py:213-231 | the stack parser equals the specification on bracketed logs |
| `Structure.RunIsBracketed` | src/include/deepfuzzy/DeepFuzzy.hpp:352-364 | every run finishes only OneOf calls it started |
| `Structure.StructureExact` | bin/deepfuzzy/executors/auxiliary/reducer.py:213-231 | on logs whose calls read first, every cut is the interval of positions read in one finished call, and every finished call has its cut |
| `Structure.CallCutExactly` | bin/deepfuzzy/executors/auxiliary/reducer.py:213-231 | on every log with increasing reads: the cut of a finished call is the interval of positions read in it if and only if the call itself reads the first of them |
| `Calls.OpensExactly` | bin/deepfuzzy/executors/auxiliary/reducer.py:220-230 | the stack holds exactly the calls whose start is not yet outweighed by a finish |
| `Calls.CutsExactly` | bin/deepfuzzy/executors/auxiliary/reducer.py:213-231 | on every log, the cuts are exactly those of the finished calls: from the first position that the call reads itself, or -1, to the last position read by then, or the default |
| `Structure.CutsAreLaminar` | bin/deepfuzzy/executors/auxiliary/reducer.py:228-231 | two cuts are nested or disjoint |
| `Structure.TraceKeepsStructure` | bin/deepfuzzy/executors/auxiliary/reducer.py:307 | the structure does not depend on conversion lines, so that of the checked run is that of the rewritten test |
| `Structure.RunCutsAreProper` | bin/deepfuzzy/executors/auxiliary/reducer.py:222-229 | on runs whose calls read first, cuts are proper intervals |
| `Structure.RunCutsAreEdged` | bin/deepfuzzy/executors/auxiliary/reducer.py:213-231 | on every run a cut is a proper interval or starts at -1 |
| `Structure.DefaultUnused` | bin/deepfuzzy/executors/auxiliary/reducer.py:215 | the cuts do not depend on the default last read if and only if every call that ends does so after a read; the last read does not as soon as there is a read |
| `Structure.AugmentWithDelims` | bin/deepfuzzy/executors/auxiliary/reducer.py:166-211 | the loops over pairs and positions equal the specification |
| `Structure.DelimsExact` | bin/deepfuzzy/executors/auxiliary/reducer.py:189-211 | the delimiter cuts are exactly the stretches from a start to a later stop of one pair, with and without the delimiters |
| `Structure.DelimsByCharacter` | bin/deepfuzzy/executors/auxiliary/reducer.py:170-211 | the same by the characters of the sixteen pairs, the first and the last line |
| `Candidates.CutLengthensExactly` | bin/deepfuzzy/executors/auxiliary/reducer.py:355-358 | a cut lengthens the test if and only if it starts at -1 and at least two bytes come after its stop |
| `Candidates.EdgesLengthenExactly` | bin/deepfuzzy/executors/auxiliary/reducer.py:375-378 | the removal of edges lengthens the test if and only if the stretch starts at -1 and the test has three bytes, or two if the stretch does not stop inside |
| `Candidates.CutGrows` | bin/deepfuzzy/executors/auxiliary/reducer.py:352-364 | on every harness: a satisfying test with such a cut and an unread last byte is not minimal, the cut is accepted, and the longer test it leaves is of the same kind |
| `Candidates.InsideNeverGrows` | bin/deepfuzzy/executors/auxiliary/reducer.py:213-231 | if on satisfying tests no stretch starts at -1, no test can grow |
| `Candidates.ReadingFirstStartsInside` | bin/deepfuzzy/executors/auxiliary/reducer.py:213-231 | no stretch of a run whose calls read first starts at -1 |
| `Candidates.InsideIsKept` | bin/deepfuzzy/executors/auxiliary/reducer.py:285-290 | and then the truncation keeps the structure |
| `Candidates.ByteLowers` | bin/deepfuzzy/executors/auxiliary/reducer.py:528-531 | a byte reduction lowers the test and makes it lighter, in length and sum of bytes |
| `Candidates.PatternLowers` | bin/deepfuzzy/executors/auxiliary/reducer.py:572-588 | a pattern change lowers the test and makes it lighter |
| `Candidates.TidyIsSafe` | bin/deepfuzzy/executors/auxiliary/reducer.py:300-307 | the rewritten test satisfies the criterion exactly when the test does, has the structure that was computed from the checked run, and is not larger; if it differs it is lighter |
| `Candidates.TruncationIsSafe` | bin/deepfuzzy/executors/auxiliary/reducer.py:285-290 | when no odd boolean is dropped, the shortened test satisfies the criterion exactly when the test does, and has the same structure if and only if calls end after a read or nothing is cut off |
| `Candidates.CutsAreBounded` | bin/deepfuzzy/executors/auxiliary/reducer.py:166-231 | the cuts in hand after any run are proper or start at -1, and proper if no call of the run starts at -1 |
| `Candidates.SwapKeepsWeight` | bin/deepfuzzy/executors/auxiliary/reducer.py:502-506 | a swap keeps the length and the sum of the bytes, whether it lowers the test or not |
| `Candidates.SwapLowersExactly` | bin/deepfuzzy/executors/auxiliary/reducer.py:500-506 | an accepted swap lowers the test if and only if the forward stretch is not a prefix of the other, or the rest compares greater where it stood; for every cut a run can leave |
| `Candidates.RegularExactly` | bin/deepfuzzy/executors/auxiliary/reducer.py:500-506 | a harness is regular if and only if no test grows and every swap that would be accepted meets that condition |
| `Candidates.RegularWithoutPrefixes` | bin/deepfuzzy/executors/auxiliary/reducer.py:502-503 | stretches that start inside on satisfying tests, and swaps without prefixes, are enough for termination |
| `Parts.ChunksInParts` | bin/deepfuzzy/executors/auxiliary/reducer.py:396-404 | no chunk of k bytes can go from a range of positions: test == pre + mid + post with k bytes in mid, or fewer at the end, implies that pre + post fails the criterion |
| `Parts.StretchInParts` | bin/deepfuzzy/executors/auxiliary/reducer.py:355-358 | no stretch can go, also where it starts at -1 and Python counts from the end |
| `Parts.RangesInParts` | bin/deepfuzzy/executors/auxiliary/reducer.py:446-482 | no range of two bytes or more that stops before the end and is shorter than the maximum can go, but for the widths 4 and 8 |
| `Parts.OrderInParts` | bin/deepfuzzy/executors/auxiliary/reducer.py:500-506 | no two stretches, of which the first compares greater, can change places |
| `Parts.PatternsInParts` | bin/deepfuzzy/executors/auxiliary/reducer.py:564-588 | no pair of bytes that occurs twice can be replaced at both places by one of its bytes, or by itself with a byte lowered |
| `Parts.MinimalIsIrreducible` | bin/deepfuzzy/executors/auxiliary/reducer.py:348-603 | where no candidate is left the test is irreducible, said of its parts: chunks, bytes lowered with the next bytes dropped, ranges, stretches and their ends, orders, bytes and patterns all matter |
| `Parts.CutsAreThese` | bin/deepfuzzy/executors/auxiliary/reducer.py:166-231 | a test can be cut at its OneOf calls and between its delimiters, as the options say, and nowhere else |
| `Parts.TidyExactly` | bin/deepfuzzy/executors/auxiliary/reducer.py:300-307 | an accepted test is rewritten by all the conversions of its run, unless structure is ignored |
| `Parts.ShortenExactly` | bin/deepfuzzy/executors/auxiliary/reducer.py:285-290 | the first test ends with the last byte on a read line, and is whole if there is none or structure is ignored |
| `Reducer.Reducer.Attempt` | bin/deepfuzzy/executors/auxiliary/reducer.py:357-364 | a candidate is taken exactly if it satisfies the criterion in time; the state stays satisfying, not heavier, and is lowered if the candidate lowers it |
| `Reducer.Reducer.UpdateCurrent` | bin/deepfuzzy/executors/auxiliary/reducer.py:300-307 | the current test becomes the rewritten candidate, still satisfying, with its own structure |
| `Reducer.Reducer.TryChunks` | bin/deepfuzzy/executors/auxiliary/reducer.py:396-404 | a rejected sweep means that without k bytes that start at any of the swept positions, or what is left of them at the end, the test fails the criterion |
| `Reducer.Reducer.ChunkLoop` | bin/deepfuzzy/executors/auxiliary/reducer.py:394-414 | although searched from a moving start, at the end of the pass no k bytes can go, wherever they are |
| `Reducer.Reducer.RangeLoop` | bin/deepfuzzy/executors/auxiliary/reducer.py:446-482 | at the end of the pass no byte range can go |
| `Reducer.Reducer.ByteLoop` | bin/deepfuzzy/executors/auxiliary/reducer.py:526-555 | at the end of the pass no byte can be lowered |
| `Reducer.Reducer.CutLoop` | bin/deepfuzzy/executors/auxiliary/reducer.py:352-364 | at the end of the pass none of the cuts in hand can be taken out, for every harness |
| `Reducer.Reducer.EdgeLoop` | bin/deepfuzzy/executors/auxiliary/reducer.py:372-384 | at the end of the pass no edges of the cuts in hand can be taken out, for every harness |
| `Reducer.Reducer.ReduceLoop` | bin/deepfuzzy/executors/auxiliary/reducer.py:423-436 | at the end of the pass no byte can be reduced with the bytes after it deleted, for every harness |
| `Reducer.Reducer.SwapLoop` | bin/deepfuzzy/executors/auxiliary/reducer.py:490-517 | at the end of the pass no swap satisfies the criterion, whether accepted swaps lower the test or not |
| `Reducer.Reducer.PatternLoop` | bin/deepfuzzy/executors/auxiliary/reducer.py:564-598 | at the end of the pass no pattern change satisfies the criterion, for every harness |
| `Reducer.Reducer.Round` | bin/deepfuzzy/executors/auxiliary/reducer.py:348-603 | if no test can grow, a round that changes nothing leaves a test that is irreducible in its parts, though passes were skipped by their caches and swaps may go up |
| `Reducer.Reducer.MainLoop` | bin/deepfuzzy/executors/auxiliary/reducer.py:339-603 | the loop keeps the criterion and, unless timed out, ends on a test that is irreducible in its parts, if no test can grow and it is not still the truncated one that lost something; on a regular harness it ends without a time limit |
| `Reducer.Reducer.Begin` | bin/deepfuzzy/executors/auxiliary/reducer.py:268-298 | the runs before the loop: each refusal if and only if its condition holds, a start if and only if the test satisfies the criterion in time, and the start is the rewritten test without the bytes after its last read |
| `Reducer.Reducer.Truncate` | bin/deepfuzzy/executors/auxiliary/reducer.py:285-290 | the test after truncation, with the structure of the run in hand; it satisfies the criterion if no odd boolean was dropped, and the structure is its own if calls end after a read besides |
| `Reducer.Reducer.Pad` | bin/deepfuzzy/executors/auxiliary/reducer.py:614-618 | padding appends zeros exactly up to the last read, unless it is switched off, and keeps the criterion |
| `Reducer.Reducer.Reduce` | bin/deepfuzzy/executors/auxiliary/reducer.py:268-625 | each refusal if and only if its condition holds; the result satisfies the criterion at every moment of time-out unless it is the first test with odd booleans cut off; if no test up to the weight of the first can grow it is not longer and, unless it is a truncated first test that lost something, irreducible in its parts on exit; termination and lowering on a regular harness; exact padding |
| `SwapCycle.SwapPassNeverEnds` | bin/deepfuzzy/executors/auxiliary/reducer.py:486-519 | on a concrete harness whose tests never grow the earlier passes leave two tests alone, each has a satisfying swap, all satisfying tests of that length are these two, no shorter one satisfies, and one swap raises the test |
| `SwapCycle.CyclerCanBeReduced` | bin/deepfuzzy/executors/auxiliary/reducer.py:486-519 | there is such a reduction, without a time limit |
| `NestedFirst.StopsUnreduced` | bin/deepfuzzy/executors/auxiliary/reducer.py:348-420 | on a concrete harness whose calls do not read first a round accepts a cut that lengthens the test and a chunk removal that undoes it, every other pass finds nothing, and the test is not minimal |
| `NestedFirst.LaterStartsInside` | bin/deepfuzzy/executors/auxiliary/reducer.py:213-231 | a log whose calls do not read first although no cut starts at -1 |
| `NestedFirst.NesterCanBeReduced` | bin/deepfuzzy/executors/auxiliary/reducer.py:348-420 | there is such a reduction, with a time limit |
| `Swarm.DrawIsWellFormed` | src/lib/DeepFuzzy.c:406-454 | every generated map is non-empty, in order, within the count and the allocation, and without repetition unless weighted |
| `SwarmDraws.FindExactly` | src/lib/DeepFuzzy.c:459-465 | a lookup finds the first entry with the same line, the same count and a file that starts with the asked one, and fails if and only if there is none |
| `SwarmDraws.DrawsFromTape` | src/lib/DeepFuzzy.c:406-454 | a pure map holds the choices whose byte is odd, a weighted one each choice as often as its word, brought below 17, says, a mixed one all or the former by one more byte; where nothing is chosen one choice is drawn; it fails exactly when these bytes go beyond the input |
| `Swarm.GenRuns` | src/lib/DeepFuzzy.c:406-454 | drawing a map by the generator is a stretch of ordinary API calls of a harness |
| `Swarm.DrawParses` | src/lib/DeepFuzzy.c:406-454 | the drawn values determine the map, and where it ends |
| `SwarmTables.WeighingCosts` | src/lib/DeepFuzzy.c:416-422 | each weight costs four bytes, so that weighted counts are small |
| `SwarmTables.SymbolicIsIdentity` | src/lib/DeepFuzzy.c:427-448 | where the tosses come up 1, as symbolic execution assumes, everything is allowed |
| `SwarmTables.SwarmTable.ProbConfig` | src/lib/DeepFuzzy.c:414-425 | the weighted loop over the allocated array draws the specified map |
| `SwarmTables.SwarmTable.PureConfig` | src/lib/DeepFuzzy.c:426-453 | so does the other loop |
| `SwarmTables.SwarmTable.NewSwarmConfig` | src/lib/DeepFuzzy.c:406-454 | a new map is the specified one, usable, and its length fits an unsigned |
| `SwarmTables.SwarmTable.GetSwarmConfig` | src/lib/DeepFuzzy.c:457-471 | the map of the first entry of the line, count and file is returned without input; where there is none and the table is not full, the map is drawn from the tape and, if complete, one entry is appended; a full table abandons; every stored map stays usable |
| `SwarmTables.AskedAgain` | src/lib/DeepFuzzy.c:459-465 | a call site gets the same map, free of input, for the rest of the run, whatever happens in between and whatever kind it asks for |
| `SwarmTables.FoundIsUsable` | src/lib/DeepFuzzy.c:462-464 | what a lookup finds indexes the asked choices and is not empty |
| `SwarmTables.TableGrows` | src/lib/DeepFuzzy.c:469-470 | a run only appends to the table |
| `SwarmTables.TableAfterFetch` | src/lib/DeepFuzzy.c:457-471 | the returned values determine the table after a request |
| `SwarmTables.FetchRuns` | src/lib/DeepFuzzy.c:457-471 | a harness that asks for a configuration runs like the plain harness it stands for |
| `SwarmTables.SwarmTable.Play` | src/include/deepfuzzy/DeepFuzzy.hpp:366-380 | a run with the table is a run of the plain harness, and the table is the one its values determine |
| `SwarmTables.RecordAndReplay` | src/lib/DeepFuzzy.c:944-952 | a recorded run with configurations is repeated by its replay, with an identical table |
| `Strings.SpelledIsAllowed` | src/lib/DeepFuzzy.c:241-251 | a generated text has exactly the asked length and only allowed characters |
| `Strings.SpelledExactly` | src/lib/DeepFuzzy.c:233-251 | each character is the next byte, 1 for a zero, or the letter that the next four bytes choose modulo the size of the alphabet, a single letter without input; it fails exactly when these bytes go beyond the input |
| `Strings.AssignCStr` | src/lib/DeepFuzzy.c:233-251 | the buffer holds the specified text and a NUL after it, and no other NUL |
| `Strings.SwarmAssignCStr` | src/lib/DeepFuzzy.c:253-278 | a configuration is fetched only if a character is read; the string is completed if and only if the fetch and all characters are, the buffer then holds the text over the restricted alphabet, and the tape stands where these reads end |
| `Search.AssignSatisfying` | src/include/deepfuzzy/DeepFuzzy.h:496-518 | the value found meets the condition and is nearest on the ring of the type, upward in ties; abandoned exactly when nothing within reach does, and for types up to 32 bits exactly when nothing at all does |
| `Search.AssignSatisfyingInRange` | src/include/deepfuzzy/DeepFuzzy.h:523-550 | the value found is in range and nearest, upward in ties; for types up to 32 bits it is abandoned exactly when the start is out of range or nothing in range meets the condition |
| `Search.CounterWraps` | src/include/deepfuzzy/DeepFuzzy.h:502-503 | the 64-bit counters may wrap without the variable noticing |
| `Search.DistanceIsLeast` | src/include/deepfuzzy/DeepFuzzy.h:496-518 | the distance on the ring is the least number of steps, up or down |
| `Verdicts.NativeRunner.RunTest` | src/include/deepfuzzy/DeepFuzzy.h:714-758 | the verdict is what the events up to the first jump leave behind |
| `Verdicts.Frontend.Explore` | bin/deepfuzzy/core/symex.py:314-334 | the classification of a saved test |
| `Verdicts.NativeVerdict` | src/lib/Log.c:78-98 | the runner jumps exactly if a reached event ends the test; its verdict is abandoned if a reached event abandons, else failed if one fails: a failure, or a line at ERROR or FATAL that is not dropped, logged by itself or as a stream with a character in it |
| `Verdicts.FrontendVerdict` | bin/deepfuzzy/core/symex.py:519-607 | the same for the front end, which drops no line, asks for an entry instead of a character, flushes a stream when a line of its level is logged, and never overflows |
| `Verdicts.StepAgrees` | src/lib/DeepFuzzy.c:108-173 | each event but a hollow flush and an overflow keeps the two machines alike or ends both with the same verdict |
| `Verdicts.VerdictsAgree` | bin/deepfuzzy/core/symex.py:383-401 | for every class of tests, given by the minimum level, the deciding levels at which hollow streams may be flushed and whether streams may overflow: the verdicts agree on all its tests if and only if the minimum is at most ERROR, no hollow ERROR or FATAL stream may be flushed and none may overflow |
| `Verdicts.HollowStreamDisagrees` | src/lib/Stream.c:284-292 | an empty string streamed at ERROR or at FATAL and flushed makes them disagree |
| `Verdicts.FullStreamDisagrees` | src/lib/Stream.c:146-153 | so does a stream that outgrows its buffer |
| `Verdicts.DroppedErrorDisagrees` | src/lib/Log.c:79-82 | so does an error line below the minimum level |
| `Verdicts.EmptyPieceIsHarmless` | src/lib/Stream.c:284-292 | an empty piece in a stream that holds something is permitted, and the test fails |
| `Symex.Engine.ConcretizeMin` | bin/deepfuzzy/core/symex.py:364-366 | the value is the least feasible one, and the condition stays satisfiable |
| `Symex.Engine.Report` | bin/deepfuzzy/core/symex.py:348-367 | the greedy bytes are the lexicographically least feasible prefix, and the condition is constrained to it |
| `Symex.LeastIsUnique` | bin/deepfuzzy/core/symex.py:361-363 | two engines with the same path condition save the same bytes |
| `Symex.SavedTestFollowsPath` | bin/deepfuzzy/core/symex.py:348-381 | replaying the saved bytes runs like an assignment of the explored path |
| `Symex.Pump` | src/include/deepfuzzy/DeepFuzzy.hpp:298-316 | the value returned on each path, by its rank, and what is feasible after |
| `Symex.PumpReturnsTheSmallest` | src/include/deepfuzzy/DeepFuzzy.hpp:298-316 | over all paths exactly the `max` smallest values are returned, each on one path |
| `Symex.OneOfExploresEachOnce` | src/include/deepfuzzy/DeepFuzzy.hpp:352-364 | OneOf calls each alternative on exactly one path |
| `Symex.BiasKeepsOrder` | src/lib/DeepFuzzy.c:625-628 | the bias by 2^31 keeps the order and is undone |
| `Symex.MinInt` | src/lib/DeepFuzzy.c:625-628 | the signed minimum through the unsigned one is the true minimum |
| `Options.OptionTable.CopyString` | src/lib/Option.c:55-66 | a string is appended, spaces disguised, and cut off at the end of the buffer |
| `Options.OptionTable.JoinArguments` | src/lib/Option.c:214-219 | the buffer holds the joined command line, or its beginning |
| `Options.OptionTable.LexCharacter` | src/lib/Option.c:105-177 | one turn of the lexer changes one character and the arrays as the automaton says |
| `Options.OptionTable.ProcessOptionString` | src/lib/Option.c:90-181 | the in-place lexer computes the automaton's buffer, names and values |
| `Options.OptionTable.InitOptions` | src/lib/Option.c:205-224 | initialisation succeeds exactly if the line is short enough and the automaton accepts it, and leaves what the automaton does |
| `Options.OptionTable.FindValueForName` | src/lib/Option.c:185-192 | the value of the first option of that name |
| `Options.LineRun` | src/lib/Option.c:90-181 | well-formed options are read as what they mean; more than 32 are refused |
| `OptionLines.LineReads` | src/lib/Option.c:90-181 | on every line the lexer finds the options of the grammar: a name of letters and underscores after two dashes, and the visible characters after an equals sign, or after spaces if no dash comes there; it gives up if and only if there are more than 32 |
| `OptionLines.LookupExactly` | src/lib/Option.c:185-192 | a lookup gives the value of the first option of the name, and fails if and only if there is none |
| `Options.ReadBackExactly` | src/lib/Option.c:90-181 | of printable options, all names and values come back if and only if no value starts with a space nor a separate one with a dash |
| `Options.RoundTrip` | src/lib/Option.c:205-224 | the round trip through argv, the joined line and the cut buffer |
| `OptionLines.ReadArguments` | src/lib/Option.c:205-224 | whatever the arguments, initialisation succeeds if and only if the joined line is short enough and has at most 32 options, and leaves exactly these |
| `Format.FormatValue` | src/lib/Stream.c:310-553 | the scanner accepts exactly complete conversions and yields the text and the kind that the letters mean |
| `Format.ScannedExactly` | src/lib/Stream.c:326-462 | a text is scanned if and only if it starts with a conversion specification, and exactly that is consumed |
| `Format.StandardSizes` | src/lib/Stream.c:408-447 | the standard length modifiers ask for the standard sizes |
| `Format.CharacterClasses` | src/lib/Stream.c:340-462 | the flags, digits, modifiers and specifiers, by their letters |
| `Format.KindByLetter` | src/lib/Stream.c:408-541 | the kind of every valid specification by its letter: c a character, d and i signed and u, o, x and X unsigned of the size, p unsigned of eight bytes, the eight float letters a double, or a long double after L, s text, and n alone nothing |
| `Format.ConvertedMeans` | src/lib/Stream.c:326-541 | a specification is converted to what its letters mean: text, kind and size |
| `Format.MeaningGoesOn` | src/lib/Stream.c:586-617 | what follows a row of pieces takes the arguments after those of the row, one for each conversion but n |
| `Format.Stream.StreamPiece` | src/lib/Stream.c:594-598 | punching out a character streams exactly the piece, and the buffer is restored |
| `Format.Stream.Append` | src/lib/Stream.c:146-153 | a stream stays under its capacity, or the test is abandoned |
| `Format.Stream.VFormat` | src/lib/Stream.c:563-621 | the pieces streamed make up the reference expansion; abandoned exactly if the format is refused or too long, or the stream would be full |
| `Format.ExpandedIsMeaning` | src/lib/Stream.c:586-617 | the expansion gives every row of literals, `%%` and conversions its meaning by the letters, one argument for each conversion but `%n` |
| `Format.AcceptedIsFlat` | src/lib/Stream.c:586-617 | only such rows are accepted |
| `Ensemble.World.Ensemble` | bin/deepfuzzy/core/fuzz.py:914-945 | a cycle is four Spawn steps of the transition system and moves no file itself; after whatever run, once its four copies are completed, a cycle has been done in the sense of the delivery theorems |
| `Ensemble.RunKeeps` | bin/deepfuzzy/core/fuzz.py:889-911 | no interleaving removes or overwrites a file |
| `Ensemble.RunHasOrigins` | bin/deepfuzzy/core/fuzz.py:889-911 | every file anywhere was found by a fuzzer, with that content |
| `Ensemble.FilesArrive` | bin/deepfuzzy/core/fuzz.py:889-911 | a file that is new in a directory was found there, or a copy that does not exclude it brought it from where it still is |
| `Ensemble.KindsStayApart` | bin/deepfuzzy/core/fuzz.py:914-945 | where all copies are those of cycles, files in crash directories come from crash directories, files in queues from queues |
| `Ensemble.SharedComesFromOwn` | bin/deepfuzzy/core/fuzz.py:914-945 | a file that is new in the shared crash directory is in the crash directory of a fuzzer, one that is new in the shared queue in the push queue of one |
| `Ensemble.CopyDelivers` | bin/deepfuzzy/core/fuzz.py:889-911 | a copy begun after a file is there, once completed, has delivered it |
| `Ensemble.CycleDelivers` | bin/deepfuzzy/core/fuzz.py:933-945 | one completed cycle delivers pulled seeds to the push queue, pushed seeds to the shared queue, crashes to the shared crash directory and shared seeds to the push queue |
| `Ensemble.SeedsArrive` | bin/deepfuzzy/core/fuzz.py:933-945 | a non-excluded seed is in every receiver's queue after two completed cycles of its owner and one of the receiver |
| `Ensemble.ContentArrives` | bin/deepfuzzy/core/fuzz.py:889-904 | with its content, if no two files of the name differ |
| `Ensemble.OneCycleIsNotEnough` | bin/deepfuzzy/core/fuzz.py:906-911 | one completed cycle of the owner can miss the shared queue |
| `Ensemble.OneCycleIsEnoughExactly` | bin/deepfuzzy/core/fuzz.py:933-945 | where only the second copy of a cycle brings the file to the shared queue, it does so if and only if it makes its list after the file is in the push queue |

## Left out

- Reduce: does not model wall-clock time, because it is no part of the algorithm; `deadline` is the number of candidate runs that the time limit admits, for every such number.
- Reduce: without a time limit it requires a regular harness (tests that cannot grow, swaps that lower), because `SwapCycle.SwapPassNeverEnds` and `Candidates.CutGrows` show that the passes need not end otherwise.
- Reduce: does not model the progress report, which divides by the length of the truncated first test (bin/deepfuzzy/executors/auxiliary/reducer.py:343): on an empty test the original stops with a division by zero, while the model returns a result.
- Reduce: takes the criterion as a function of the harness's own output and exit, not of the read log, and a harness whose output does not imitate a read line.
- Reducer: progress output, file writing, `--cmdArgs` and the regression and search options of the command line, which choose the criterion.
- AssignSatisfyingInRange: does not model a range with 2^63 strictly inside, because a signed counter overflows on it in C.
- SwarmAssignCStr: an empty or 4 GiB set of allowed characters, on which the C code indexes out of the array.
- SwarmTable: allocation failure and the pointers of generated allocations; in symbolic execution the assumptions are modelled by their effect (`SymbolicIsIdentity`), not by a solver.
- RoundTrip: takes printable options; what the lexer makes of any other arguments is stated by `OptionLines.ReadArguments`.
- FormatValue: a conversion specification of more than 31 characters, which overruns its buffer in C.
- VFormat: rendering by snprintf, which is a parameter; the stream's message is a sequence, so that partial writes of an abandoned piece are not modelled.
- Verdicts: `DeepFuzzy_Crash`, which the native runner and the front end classify differently by design, take-over mode, and the lines themselves.
- Symex: the engines and their solvers, which are the set of satisfying assignments; DeepFuzzy_MaxInt, which mirrors MinInt.
- Ensemble: rsync's exclude patterns, which are sets of names; crashes of copies, and files that a fuzzer deletes or rewrites in its own queues.
- Process control, fork and signals: only the runner without fork is modelled, with an early exit for longjmp.
- Floating point: FloatInRange, DoubleInRange and the real-valued arithmetic of PickIndex.
- The DEEPFUZZY_RANGE_BOUNDARY_BIAS variant of InRange, Windows code and libFuzzer's repeated setup.
- BufferDocString, the parsers of single option types, and the comparison helpers, which would only add easy members.
