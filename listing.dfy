/** The listing parser (`parseVersions`): the text `nvm list` prints becomes the
    ordered list of installed version tokens. The text is cleaned of colour
    escapes and of the arrow that marks the active version, split into lines,
    each line trimmed, and blank lines and decoration lines dropped. */
module Listing {
  import opened Strings

  /** The escape character that starts an ANSI colour sequence. */
  const ESC: char := '\U{1b}'

  /** No escape character is followed, anywhere later, by an `m`: the text holds
      nothing the pattern `/\x1b[^m]*m/` can match. */
  predicate NoAnsiSpan(s: string) {
    forall i, j | 0 <= i < j < |s| :: s[i] == ESC ==> s[j] != 'm'
  }

  /** `s.replace(/\x1b[^m]*m/g, '')`: every span from an escape character up to and
      including the first `m` after it is deleted, scanning from the left; `[^m]`
      also matches line breaks, so a span may cross lines. An escape with no `m`
      after it stays. */
  function StripAnsi(s: string): (r: string)
    decreases |s|
    ensures NoAnsiSpan(r)
    ensures forall i | 0 <= i < |r| :: r[i] in s
  {
    if s == [] then ""
    else if s[0] == ESC && 'm' in s[1..] then
      var k := IndexOf(s[1..], 'm');
      StripAnsi(s[k + 2..])
    else
      var rest := StripAnsi(s[1..]);
      assert forall i | 0 <= i < |rest| :: rest[i] in s[1..];
      [s[0]] + rest
  }

  /** Text without an escape span is left as it is, so stripping is idempotent. */
  lemma {:induction false} StripAnsiOfQuiet(s: string)
    requires NoAnsiSpan(s)
    ensures StripAnsi(s) == s
    decreases |s|
  {
    if s != [] {
      assert s[0] == ESC ==> 'm' !in s[1..] by {
        forall j | 0 <= j < |s| - 1 ensures s[0] == ESC ==> s[1..][j] != 'm' {
          assert s[1..][j] == s[j + 1];
        }
      }
      assert NoAnsiSpan(s[1..]) by {
        forall i, j | 0 <= i < j < |s| - 1 && s[1..][i] == ESC ensures s[1..][j] != 'm' {
          assert s[i + 1] == ESC;
        }
      }
      StripAnsiOfQuiet(s[1..]);
    }
  }

  /** Text before the first escape character passes through unchanged. */
  lemma {:induction false} StripAnsiKeepsPlain(a: string, t: string)
    requires ESC !in a
    ensures StripAnsi(a + t) == a + StripAnsi(t)
    decreases |a|
  {
    if a == [] {
      assert a + t == t;
    } else {
      var s := a + t;
      assert s[0] == a[0] && s[1..] == a[1..] + t;
      StripAnsiKeepsPlain(a[1..], t);
      assert a == [a[0]] + a[1..];
    }
  }

  /** An escape character, the text up to the next `m`, and that `m` are deleted together. */
  lemma StripAnsiDropsSpan(b: string, t: string)
    requires 'm' !in b
    ensures StripAnsi([ESC] + b + "m" + t) == StripAnsi(t)
  {
    var s := [ESC] + b + "m" + t;
    var tail := s[1..];
    assert tail == b + "m" + t;
    assert tail[|b|] == 'm';
    var k := IndexOf(tail, 'm');
    assert forall i | 0 <= i < |b| :: tail[i] == b[i];
    assert k == |b|;
    assert s[k + 2..] == t;
  }

  /** An escape character with no `m` after it stays. */
  lemma StripAnsiKeepsLoneEscape(t: string)
    requires 'm' !in t
    ensures StripAnsi([ESC] + t) == [ESC] + StripAnsi(t)
  {
    assert ([ESC] + t)[1..] == t;
  }

  /** `s.replace(/^->/gm, '')`: an arrow `->` is deleted where a line begins, that is
      at the start of the text or right after a line terminator. `atLineStart` says
      whether the first position of `s` is such a place. The replacement makes one
      pass, so `->->` at a line start leaves `->`. */
  function StripLineArrows(s: string, atLineStart: bool): string
    decreases |s|
  {
    if atLineStart && |s| >= 2 && s[0] == '-' && s[1] == '>' then StripLineArrows(s[2..], false)
    else if s == [] then ""
    else [s[0]] + StripLineArrows(s[1..], IsLineTerminator(s[0]))
  }

  /** The positions of `s` whose characters `StripLineArrows(s, atLineStart)` keeps, in order. */
  function ArrowKept(s: string, atLineStart: bool): seq<nat>
    decreases |s|
  {
    if atLineStart && |s| >= 2 && s[0] == '-' && s[1] == '>' then Shift(ArrowKept(s[2..], false), 2)
    else if s == [] then []
    else [0] + Shift(ArrowKept(s[1..], IsLineTerminator(s[0])), 1)
  }

  /** Deleting arrows only deletes: the result is the text with some positions left
      out, and the others kept in their order. */
  lemma {:induction false} StripLineArrowsDeletes(s: string, atLineStart: bool)
    decreases |s|
    ensures var r := StripLineArrows(s, atLineStart);
      |r| <= |s| && Picks(r, s, ArrowKept(s, atLineStart))
  {
    if atLineStart && |s| >= 2 && s[0] == '-' && s[1] == '>' {
      StripLineArrowsDeletes(s[2..], false);
      PicksFromSuffix(StripLineArrows(s[2..], false), s, ArrowKept(s[2..], false), 2);
    } else if s != [] {
      StripLineArrowsDeletes(s[1..], IsLineTerminator(s[0]));
      PicksCons(StripLineArrows(s[1..], IsLineTerminator(s[0])), s, ArrowKept(s[1..], IsLineTerminator(s[0])));
    }
  }

  /** No `-` is directly followed by `>`. */
  predicate NoArrow(s: string) {
    forall i | 0 <= i < |s| - 1 :: !(s[i] == '-' && s[i + 1] == '>')
  }

  /** Text without an arrow is left as it is. */
  lemma {:induction false} StripLineArrowsOfArrowless(s: string, atLineStart: bool)
    requires NoArrow(s)
    ensures StripLineArrows(s, atLineStart) == s
    decreases |s|
  {
    if s != [] {
      assert |s| >= 2 ==> !(s[0] == '-' && s[1] == '>');
      assert NoArrow(s[1..]) by {
        forall i | 0 <= i < |s| - 2 ensures !(s[1..][i] == '-' && s[1..][i + 1] == '>') {
          assert s[1..][i] == s[i + 1] && s[1..][i + 1] == s[i + 2];
        }
      }
      StripLineArrowsOfArrowless(s[1..], IsLineTerminator(s[0]));
    }
  }

  /** Deleting arrows cannot bring an escape character before an `m`. */
  lemma {:induction false} StripLineArrowsQuiet(s: string, atLineStart: bool)
    requires NoAnsiSpan(s)
    ensures NoAnsiSpan(StripLineArrows(s, atLineStart))
    decreases |s|
  {
    if atLineStart && |s| >= 2 && s[0] == '-' && s[1] == '>' {
      assert NoAnsiSpan(s[2..]) by {
        forall i, j | 0 <= i < j < |s| - 2 && s[2..][i] == ESC ensures s[2..][j] != 'm' {
          assert s[i + 2] == ESC;
        }
      }
      StripLineArrowsQuiet(s[2..], false);
    } else if s != [] {
      var tail := s[1..];
      assert NoAnsiSpan(tail) by {
        forall i, j | 0 <= i < j < |tail| && tail[i] == ESC ensures tail[j] != 'm' {
          assert s[i + 1] == ESC;
        }
      }
      StripLineArrowsQuiet(tail, IsLineTerminator(s[0]));
      StripLineArrowsDeletes(tail, IsLineTerminator(s[0]));
      var rest := StripLineArrows(tail, IsLineTerminator(s[0]));
      assert StripLineArrows(s, atLineStart) == [s[0]] + rest;
      if s[0] == ESC {
        forall j | 0 <= j < |rest| ensures rest[j] != 'm' {
          var i := ArrowKept(tail, IsLineTerminator(s[0]))[j];
          assert s[i + 1] == rest[j];
        }
      }
    }
  }

  /** The two `replace` calls of the cleaning step, in their order. */
  function Clean(stdout: string): string
  {
    StripLineArrows(StripAnsi(stdout), true)
  }

  /** The cleaned text holds no escape span. */
  lemma CleanIsQuiet(stdout: string)
    ensures NoAnsiSpan(Clean(stdout))
  {
    StripLineArrowsQuiet(StripAnsi(stdout), true);
  }

  /** A trimmed line that is kept: not empty, and none of `current`, `system`,
      `->` occurs in it. */
  predicate Keep(line: string) {
    line != "" && !Contains(line, "current") && !Contains(line, "system") && !Contains(line, "->")
  }

  /** `lines.map(line => line.trim())`. */
  function TrimAll(lines: seq<string>): (r: seq<string>)
    ensures |r| == |lines|
    ensures forall k | 0 <= k < |r| :: r[k] == Trim(lines[k])
  {
    if lines == [] then []
    else
      var rest := TrimAll(lines[1..]);
      [Trim(lines[0])] + rest
  }

  /** `lines.filter(line => line && !line.match(/current|system|->/))`. */
  function FilterKept(lines: seq<string>): seq<string>
  {
    if lines == [] then []
    else if Keep(lines[0]) then [lines[0]] + FilterKept(lines[1..])
    else FilterKept(lines[1..])
  }

  /** The cleaned and trimmed lines of a listing, before the filter. */
  function Lines(stdout: string): seq<string>
  {
    TrimAll(Split(Clean(stdout), '\n'))
  }

  /** A version token as the parser hands it on: kept by the filter, trimmed,
      on one line and without an escape span. */
  predicate IsCandidate(v: string) {
    Keep(v) && IsTrimmed(v) && '\n' !in v && NoAnsiSpan(v)
  }

  /** The escape spans of a list of lines, taken together: no line holds one, and
      no escape character in a line is followed by an `m` in a later line. */
  predicate Quiet(lines: seq<string>) {
    && (forall k | 0 <= k < |lines| :: NoAnsiSpan(lines[k]))
    && (forall k, l | 0 <= k < l < |lines| :: ESC in lines[k] ==> 'm' !in lines[l])
  }

  /** `parseVersions`: the ordered version tokens of an `nvm list` output. */
  function ParseVersions(stdout: string): seq<string>
  {
    FilterKept(Lines(stdout))
  }

  /** Every token the parser returns is a candidate, and the tokens are quiet together. */
  lemma ParseVersionsCandidates(stdout: string)
    ensures var versions := ParseVersions(stdout);
      && (forall k | 0 <= k < |versions| :: IsCandidate(versions[k]))
      && Quiet(versions)
  {
    var lines := Lines(stdout);
    var versions, idx := FilterKept(lines), KeptFrom(lines, 0);
    LinesQuiet(stdout);
    FilterKeptIndices(lines);
    forall k | 0 <= k < |versions| ensures IsCandidate(versions[k]) {
      var i := idx[k];
      assert versions[k] == lines[i] && i in idx;
    }
    KeptQuiet(lines, versions, idx);
  }

  /** Lines picked in increasing order from quiet lines are quiet. */
  lemma KeptQuiet(lines: seq<string>, r: seq<string>, idx: seq<nat>)
    requires Quiet(lines) && |idx| == |r|
    requires forall k | 0 <= k < |idx| :: idx[k] < |lines| && r[k] == lines[idx[k]]
    requires forall k, l | 0 <= k < l < |idx| :: idx[k] < idx[l]
    ensures Quiet(r)
  {
    forall k, l | 0 <= k < l < |r| && ESC in r[k] ensures 'm' !in r[l] {
      assert idx[k] < idx[l];
    }
  }

  /** A span-free text stays span-free, line by line, once split and trimmed. */
  lemma LinesQuiet(stdout: string)
    ensures Quiet(Lines(stdout))
    ensures forall k | 0 <= k < |Lines(stdout)| :: '\n' !in Lines(stdout)[k]
  {
    var c := Clean(stdout);
    CleanIsQuiet(stdout);
    var pieces := Split(c, '\n');
    JoinSplit(c, '\n');
    JoinQuiet(pieces);
    var lines := Lines(stdout);
    forall k | 0 <= k < |lines|
      ensures NoAnsiSpan(lines[k]) && '\n' !in lines[k]
      ensures ESC in lines[k] ==> ESC in pieces[k]
      ensures 'm' in lines[k] ==> 'm' in pieces[k]
    {
      var a :| 0 <= a <= |pieces[k]| && IsTrimOf(pieces[k], lines[k], a);
      QuietPiece(pieces[k], lines[k], a);
    }
  }

  /** A piece of a span-free text is span-free and has only characters of the text. */
  lemma QuietPiece(s: string, r: string, a: int)
    requires OccursAt(s, r, a)
    ensures NoAnsiSpan(s) ==> NoAnsiSpan(r)
    ensures forall c | c in r :: c in s
  {
    assert forall i | 0 <= i < |r| :: r[i] == s[a + i];
  }

  /** A joined text is span-free exactly when its lines, taken together, are. */
  lemma {:induction false} JoinQuiet(lines: seq<string>)
    ensures NoAnsiSpan(Join(lines, '\n')) <==> Quiet(lines)
  {
    if |lines| > 1 {
      var head, tail := lines[0], lines[1..];
      var rest := Join(tail, '\n');
      JoinQuiet(tail);
      InJoin(tail, '\n', 'm');
      ConcatQuiet(head, "\n" + rest);
      ConcatQuiet("\n", rest);
      assert Join(lines, '\n') == head + ("\n" + rest);
      assert 'm' in "\n" + rest <==> 'm' in rest;
      assert ESC in "\n" + rest <==> ESC in rest;
      assert lines == [head] + tail;
      QuietCons(head, tail);
    }
  }

  /** A list of lines with a first line is span-free exactly when the first line and the rest
      are, and no `m` follows an escape of the first line. */
  lemma QuietCons(head: string, tail: seq<string>)
    ensures Quiet([head] + tail) <==>
      NoAnsiSpan(head) && Quiet(tail) && (ESC in head ==> forall k | 0 <= k < |tail| :: 'm' !in tail[k])
  {
    var lines := [head] + tail;
    assert forall k | 1 <= k < |lines| :: lines[k] == tail[k - 1];
    if NoAnsiSpan(head) && Quiet(tail) && (ESC in head ==> forall k | 0 <= k < |tail| :: 'm' !in tail[k]) {
      forall k, l | 0 <= k < l < |lines| && ESC in lines[k] ensures 'm' !in lines[l] {
        if k > 0 {
          assert ESC in tail[k - 1] && lines[l] == tail[l - 1];
        } else {
          assert lines[l] == tail[l - 1];
        }
      }
    }
    if Quiet(lines) {
      forall k | 0 <= k < |tail| ensures NoAnsiSpan(tail[k]) && (ESC in head ==> 'm' !in tail[k]) {
        assert lines[0] == head && tail[k] == lines[k + 1];
      }
      forall k, l | 0 <= k < l < |tail| && ESC in tail[k] ensures 'm' !in tail[l] {
        assert tail[k] == lines[k + 1] && tail[l] == lines[l + 1];
      }
    }
  }

  /** A concatenation is span-free exactly when both parts are and no escape of
      the first is followed by an `m` of the second. */
  lemma ConcatQuiet(a: string, b: string)
    ensures NoAnsiSpan(a + b) <==> NoAnsiSpan(a) && NoAnsiSpan(b) && !(ESC in a && 'm' in b)
  {
    var s := a + b;
    if ESC in a && 'm' in b {
      var i :| 0 <= i < |a| && a[i] == ESC;
      var j :| 0 <= j < |b| && b[j] == 'm';
      assert s[i] == ESC && s[|a| + j] == 'm';
    }
    if NoAnsiSpan(s) {
      forall i, j | 0 <= i < j < |a| && a[i] == ESC ensures a[j] != 'm' {
        assert s[i] == ESC && s[j] == a[j];
      }
      forall i, j | 0 <= i < j < |b| && b[i] == ESC ensures b[j] != 'm' {
        assert s[|a| + i] == ESC && s[|a| + j] == b[j];
      }
    }
    if NoAnsiSpan(a) && NoAnsiSpan(b) && !(ESC in a && 'm' in b) {
      forall i, j | 0 <= i < j < |s| && s[i] == ESC ensures s[j] != 'm' {
        if j < |a| {
          assert s[i] == a[i] && s[j] == a[j];
        } else if i < |a| {
          assert a[i] == ESC && s[j] == b[j - |a|];
        } else {
          assert s[i] == b[i - |a|] && s[j] == b[j - |a|];
        }
      }
    }
  }

  /** The positions, from `i` on, of the lines the filter keeps, in increasing order. */
  function KeptFrom(lines: seq<string>, i: nat): (idx: seq<nat>)
    requires i <= |lines|
    decreases |lines| - i
    ensures forall k | 0 <= k < |idx| :: i <= idx[k] < |lines|
  {
    if i == |lines| then []
    else (if Keep(lines[i]) then [i] else []) + KeptFrom(lines, i + 1)
  }

  /** What the filter returns, position by position: the `k`-th result is the line
      at the `k`-th kept position, the positions increase, and every kept line is
      among them. So the filter keeps the order of the lines and drops no duplicate. */
  lemma FilterKeptIndices(lines: seq<string>)
    ensures var r, idx := FilterKept(lines), KeptFrom(lines, 0);
      && |idx| == |r|
      && (forall k | 0 <= k < |r| :: r[k] == lines[idx[k]])
      && (forall k, l | 0 <= k < l < |idx| :: idx[k] < idx[l])
      && (forall i | 0 <= i < |lines| :: Keep(lines[i]) <==> i in idx)
  {
    FilterKeptFrom(lines, 0);
    KeptFromMembers(lines, 0);
    assert lines[0..] == lines;
  }

  lemma {:induction false} FilterKeptFrom(lines: seq<string>, i: nat)
    requires i <= |lines|
    decreases |lines| - i
    ensures var r, idx := FilterKept(lines[i..]), KeptFrom(lines, i);
      && |idx| == |r|
      && (forall k | 0 <= k < |r| :: r[k] == lines[idx[k]])
      && (forall k, l | 0 <= k < l < |idx| :: idx[k] < idx[l])
  {
    if i < |lines| {
      FilterKeptFrom(lines, i + 1);
      assert lines[i..][1..] == lines[i + 1..];
    }
  }

  lemma {:induction false} KeptFromMembers(lines: seq<string>, i: nat)
    requires i <= |lines|
    decreases |lines| - i
    ensures forall j | i <= j < |lines| :: Keep(lines[j]) <==> j in KeptFrom(lines, i)
  {
    if i < |lines| {
      KeptFromMembers(lines, i + 1);
      var head: seq<nat> := if Keep(lines[i]) then [i] else [];
      assert KeptFrom(lines, i) == head + KeptFrom(lines, i + 1);
      forall j | i <= j < |lines| ensures Keep(lines[j]) <==> j in KeptFrom(lines, i) {
        assert j in KeptFrom(lines, i) <==> j in head || j in KeptFrom(lines, i + 1);
      }
    }
  }

  /** The parser returns exactly the trimmed, cleaned lines that pass the filter,
      in the order of the listing and with repetitions kept. */
  lemma ParseVersionsSelects(stdout: string)
    ensures var versions, lines := ParseVersions(stdout), Lines(stdout);
      var idx := KeptFrom(lines, 0);
      && |idx| == |versions|
      && (forall k | 0 <= k < |versions| :: versions[k] == lines[idx[k]])
      && (forall k, l | 0 <= k < l < |idx| :: idx[k] < idx[l])
      && (forall i | 0 <= i < |lines| :: Keep(lines[i]) <==> i in idx)
  {
    FilterKeptIndices(Lines(stdout));
  }

  /** A line has no `->` exactly when no `-` in it is directly followed by `>`. */
  lemma ArrowFree(line: string)
    ensures NoArrow(line) <==> !Contains(line, "->")
  {
    forall i | 0 <= i < |line| - 1 && line[i] == '-' && line[i + 1] == '>'
      ensures OccursAt(line, "->", i)
    {
      assert line[i..i + 2] == "->";
    }
    if Contains(line, "->") {
      var i :| 0 <= i <= |line| && OccursAt(line, "->", i);
      assert line[i] == '-' && line[i + 1] == '>';
    }
  }

  /** Arrow-free lines joined with line breaks give an arrow-free text. */
  lemma {:induction false} JoinArrowFree(lines: seq<string>)
    requires forall k | 0 <= k < |lines| :: NoArrow(lines[k])
    ensures NoArrow(Join(lines, '\n'))
  {
    if |lines| > 1 {
      var head, rest := lines[0], Join(lines[1..], '\n');
      JoinArrowFree(lines[1..]);
      var s := Join(lines, '\n');
      assert s == head + "\n" + rest;
      forall i | 0 <= i < |s| - 1 ensures !(s[i] == '-' && s[i + 1] == '>') {
        if i + 1 < |head| {
          assert s[i] == head[i] && s[i + 1] == head[i + 1];
        } else if i > |head| {
          assert s[i] == rest[i - |head| - 1] && s[i + 1] == rest[i - |head|];
        }
      }
    }
  }

  /** The filter returns a list of kept lines unchanged. */
  lemma {:induction false} FilterKeptAll(lines: seq<string>)
    requires forall k | 0 <= k < |lines| :: Keep(lines[k])
    ensures FilterKept(lines) == lines
  {
    if lines != [] {
      FilterKeptAll(lines[1..]);
    }
  }

  /** Joining quiet candidates with line breaks gives a text the cleaning step leaves alone. */
  lemma CleanOfJoinedCandidates(versions: seq<string>)
    requires forall k | 0 <= k < |versions| :: IsCandidate(versions[k])
    requires Quiet(versions)
    ensures Clean(Join(versions, '\n')) == Join(versions, '\n')
  {
    var text := Join(versions, '\n');
    JoinQuiet(versions);
    StripAnsiOfQuiet(text);
    forall k | 0 <= k < |versions| ensures NoArrow(versions[k]) {
      ArrowFree(versions[k]);
    }
    JoinArrowFree(versions);
    StripLineArrowsOfArrowless(text, true);
  }

  /** An empty listing has no versions. */
  lemma ParseEmpty()
    ensures ParseVersions("") == []
  {
    assert Clean("") == "";
    assert Split("", '\n') == [""];
    assert Trim("") == "";
    assert Lines("") == [""];
    assert !Keep("");
  }

  /** The cleaned, trimmed lines of joined quiet candidates are the candidates. */
  lemma LinesOfJoinedCandidates(versions: seq<string>)
    requires versions != []
    requires forall k | 0 <= k < |versions| :: IsCandidate(versions[k])
    requires Quiet(versions)
    ensures Lines(Join(versions, '\n')) == versions
  {
    CleanOfJoinedCandidates(versions);
    SplitJoin(versions, '\n');
    forall k | 0 <= k < |versions| ensures Trim(versions[k]) == versions[k] {
      TrimOfTrimmed(versions[k]);
    }
  }

  /** Candidates that are quiet together survive a round trip through the parser:
      joined with line breaks and parsed again, they come back unchanged. */
  lemma ParseJoinedCandidates(versions: seq<string>)
    requires forall k | 0 <= k < |versions| :: IsCandidate(versions[k])
    requires Quiet(versions)
    ensures ParseVersions(Join(versions, '\n')) == versions
  {
    if versions == [] {
      ParseEmpty();
    } else {
      var text := Join(versions, '\n');
      LinesOfJoinedCandidates(versions);
      FilterKeptAll(versions);
    }
  }

  /** Parsing is idempotent: the parsed tokens, joined with line breaks and
      parsed again, are the same tokens. */
  lemma ParseVersionsIdempotent(stdout: string)
    ensures ParseVersions(Join(ParseVersions(stdout), '\n')) == ParseVersions(stdout)
  {
    ParseVersionsCandidates(stdout);
    ParseJoinedCandidates(ParseVersions(stdout));
  }

  /** No line terminator occurs in `s`. */
  predicate OneLine(s: string) {
    forall i | 0 <= i < |s| :: !IsLineTerminator(s[i])
  }

  /** Inside one line, away from its start, no arrow is removed. */
  lemma {:induction false} StripLineArrowsInsideLine(s: string)
    requires OneLine(s)
    ensures StripLineArrows(s, false) == s
    decreases |s|
  {
    if s != [] {
      StripLineArrowsInsideLine(s[1..]);
    }
  }

  /** The arrow is removed once per line start: a line that starts with two arrows
      still starts with one after cleaning. */
  lemma ArrowRemovedOnce(x: string)
    requires OneLine(x)
    ensures StripLineArrows("->->" + x, true) == "->" + x
  {
    var rest := "->" + x;
    assert forall i | 0 <= i < |rest| :: rest[i] == if i < 2 then "->"[i] else x[i - 2];
    assert ("->->" + x)[2..] == rest;
    StripLineArrowsInsideLine(rest);
  }

  /** Arrow removal treats the text before a line break and the text after it separately. */
  lemma {:induction false} StripLineArrowsAcrossBreak(a: string, b: string, atLineStart: bool)
    requires OneLine(a)
    ensures StripLineArrows(a + "\n" + b, atLineStart) == StripLineArrows(a, atLineStart) + "\n" + StripLineArrows(b, true)
    decreases |a|
  {
    var s := a + "\n" + b;
    if a == [] {
      assert s == "\n" + b;
      assert s[1..] == b;
      assert StripLineArrows(s, atLineStart) == "\n" + StripLineArrows(b, true);
    } else if atLineStart && |a| >= 2 && a[0] == '-' && a[1] == '>' {
      StripLineArrowsAcrossBreak(a[2..], b, false);
      assert s[2..] == a[2..] + "\n" + b;
      assert StripLineArrows(s, atLineStart) == StripLineArrows(a[2..] + "\n" + b, false);
    } else {
      StripLineArrowsAcrossBreak(a[1..], b, false);
      StripLineArrowsKeepsFirst(a, b, atLineStart);
    }
  }

  /** The step of `StripLineArrowsAcrossBreak` where the first character of the line stays. */
  lemma StripLineArrowsKeepsFirst(a: string, b: string, atLineStart: bool)
    requires OneLine(a) && a != []
    requires !(atLineStart && |a| >= 2 && a[0] == '-' && a[1] == '>')
    requires StripLineArrows(a[1..] + "\n" + b, false) == StripLineArrows(a[1..], false) + "\n" + StripLineArrows(b, true)
    ensures StripLineArrows(a + "\n" + b, atLineStart) == StripLineArrows(a, atLineStart) + "\n" + StripLineArrows(b, true)
  {
    var s := a + "\n" + b;
    assert s[1..] == a[1..] + "\n" + b;
    assert s[0] == a[0] && !IsLineTerminator(a[0]);
    assert s[1] == if |a| == 1 then '\n' else a[1];
    StripLineArrowsKeep(s, atLineStart);
    StripLineArrowsKeep(a, atLineStart);
    RegroupText([a[0]], StripLineArrows(a[1..], false), StripLineArrows(b, true));
  }

  /** Concatenation of texts around a line feed regroups. */
  lemma RegroupText(c: string, x: string, y: string)
    ensures c + (x + "\n" + y) == c + x + "\n" + y
  {
  }

  /** Where no arrow starts, the first character stays and the rest is processed. */
  lemma StripLineArrowsKeep(s: string, atLineStart: bool)
    requires s != [] && !(atLineStart && |s| >= 2 && s[0] == '-' && s[1] == '>')
    ensures StripLineArrows(s, atLineStart) == [s[0]] + StripLineArrows(s[1..], IsLineTerminator(s[0]))
  {
  }

  /** Arrow removal on each line by itself. */
  function StripEach(lines: seq<string>): (r: seq<string>)
    ensures |r| == |lines|
    ensures forall k | 0 <= k < |r| :: r[k] == StripLineArrows(lines[k], true)
  {
    if lines == [] then []
    else
      var rest := StripEach(lines[1..]);
      [StripLineArrows(lines[0], true)] + rest
  }

  /** On lines joined with line breaks, arrow removal works line by line. */
  lemma {:induction false} StripLineArrowsJoin(lines: seq<string>)
    requires forall k | 0 <= k < |lines| :: OneLine(lines[k])
    ensures StripLineArrows(Join(lines, '\n'), true) == Join(StripEach(lines), '\n')
  {
    if |lines| > 1 {
      StripLineArrowsJoin(lines[1..]);
      StripLineArrowsAcrossBreak(lines[0], Join(lines[1..], '\n'), true);
      assert Join(lines, '\n') == lines[0] + "\n" + Join(lines[1..], '\n');
      assert StripEach(lines)[1..] == StripEach(lines[1..]);
    }
  }

  /** Lines without escapes are quiet together. */
  lemma EscapeFreeQuiet(lines: seq<string>)
    requires forall k | 0 <= k < |lines| :: ESC !in lines[k]
    ensures Quiet(lines)
  {
  }

  /** A listing of lines with neither escapes nor line terminators other than the
      breaks between them is parsed line by line: each line loses a leading arrow,
      is trimmed, and is kept or dropped by the filter. */
  lemma ParseLineByLine(lines: seq<string>)
    requires lines != []
    requires forall k | 0 <= k < |lines| :: OneLine(lines[k]) && ESC !in lines[k]
    ensures ParseVersions(Join(lines, '\n')) == FilterKept(TrimAll(StripEach(lines)))
  {
    var text := Join(lines, '\n');
    EscapeFreeQuiet(lines);
    JoinQuiet(lines);
    StripAnsiOfQuiet(text);
    StripLineArrowsJoin(lines);
    var stripped := StripEach(lines);
    forall k | 0 <= k < |stripped| ensures '\n' !in stripped[k] {
      StripLineArrowsDeletes(lines[k], true);
    }
    SplitJoin(stripped, '\n');
  }

  /** The filter works element by element. */
  lemma {:induction false} FilterKeptAppend(a: seq<string>, b: seq<string>)
    ensures FilterKept(a + b) == FilterKept(a) + FilterKept(b)
  {
    if a != [] {
      FilterKeptAppend(a[1..], b);
      assert (a + b)[0] == a[0] && (a + b)[1..] == a[1..] + b;
      var head := if Keep(a[0]) then [a[0]] else [];
      assert FilterKept(a + b) == head + FilterKept(a[1..] + b);
      assert FilterKept(a) == head + FilterKept(a[1..]);
    } else {
      assert a + b == b;
    }
  }

  /** The only line terminator in `s`, if any, is the line feed. */
  predicate OnlyBreaks(s: string) {
    forall i | 0 <= i < |s| :: IsLineTerminator(s[i]) ==> s[i] == '\n'
  }

  /** A line that does not start with `-` keeps its arrows. */
  lemma LineWithoutLeadingArrow(line: string)
    requires OneLine(line) && line != [] && line[0] != '-'
    ensures StripLineArrows(line, true) == line
  {
    StripLineArrowsKeep(line, true);
    StripLineArrowsInsideLine(line[1..]);
  }

  /** A line that starts with `->` loses those two characters and nothing else. */
  lemma LineWithLeadingArrow(line: string)
    requires OneLine(line) && |line| >= 2 && line[0] == '-' && line[1] == '>'
    ensures StripLineArrows(line, true) == line[2..]
  {
    StripLineArrowsInsideLine(line[2..]);
  }

  /** The pieces of a text with only line feeds as line terminators are lines,
      and have no escape when the text has none. */
  lemma PiecesAreLines(rest: string)
    requires OnlyBreaks(rest) && ESC !in rest
    ensures forall k | 0 <= k < |Split(rest, '\n')| :: OneLine(Split(rest, '\n')[k]) && ESC !in Split(rest, '\n')[k]
  {
    var pieces := Split(rest, '\n');
    JoinSplit(rest, '\n');
    forall k | 0 <= k < |pieces| ensures OneLine(pieces[k]) && ESC !in pieces[k] {
      InJoin(pieces, '\n', ESC);
      forall i | 0 <= i < |pieces[k]| ensures !IsLineTerminator(pieces[k][i]) {
        var c := pieces[k][i];
        InJoin(pieces, '\n', c);
        assert c != '\n' ==> c in rest;
      }
    }
  }

  /** A line, a line feed and a text: the characters of the parts. */
  lemma FirstLineChars(line: string, rest: string)
    requires OneLine(line) && ESC !in line
    requires OnlyBreaks(rest) && ESC !in rest
    ensures OnlyBreaks(line + "\n" + rest) && ESC !in line + "\n" + rest
  {
    var text := line + "\n" + rest;
    forall i | 0 <= i < |text| ensures text[i] in line || text[i] == '\n' || text[i] in rest {
      if i < |line| {
        assert text[i] == line[i];
      } else if i > |line| {
        assert text[i] == rest[i - |line| - 1];
      }
    }
  }

  /** The first line of a listing is parsed by itself: a listing whose only line
      terminators are line feeds and that has no escapes yields the first line's
      token, if the filter keeps it, followed by the tokens of the rest. */
  lemma ParseFirstLine(line: string, rest: string)
    requires OneLine(line) && ESC !in line
    requires OnlyBreaks(rest) && ESC !in rest
    ensures OnlyBreaks(line + "\n" + rest) && ESC !in line + "\n" + rest
    ensures ParseVersions(line + "\n" + rest) == FilterKept([Trim(StripLineArrows(line, true))]) + ParseVersions(rest)
  {
    FirstLineChars(line, rest);
    var pieces := Split(rest, '\n');
    var lines := [line] + pieces;
    FirstLineJoin(line, rest);
    PiecesAreLines(rest);
    JoinSplit(rest, '\n');
    ParseLineByLine(lines);
    ParseLineByLine(pieces);
    CleanFirstLine(line, pieces);
    FilterKeptAppend([Trim(StripLineArrows(line, true))], TrimAll(StripEach(pieces)));
  }

  /** Arrow removal line by line, the first line apart. */
  lemma StripEachCons(line: string, pieces: seq<string>)
    ensures StripEach([line] + pieces) == [StripLineArrows(line, true)] + StripEach(pieces)
  {
    assert ([line] + pieces)[1..] == pieces;
  }

  /** Trimming line by line, the first line apart. */
  lemma TrimAllCons(line: string, pieces: seq<string>)
    ensures TrimAll([line] + pieces) == [Trim(line)] + TrimAll(pieces)
  {
    assert ([line] + pieces)[1..] == pieces;
  }

  /** Cleaning and trimming line by line, the first line apart. */
  lemma CleanFirstLine(line: string, pieces: seq<string>)
    ensures TrimAll(StripEach([line] + pieces)) == [Trim(StripLineArrows(line, true))] + TrimAll(StripEach(pieces))
  {
    StripEachCons(line, pieces);
    TrimAllCons(StripLineArrows(line, true), StripEach(pieces));
  }

  /** A line and the pieces of the text after its line feed: lines that join to the whole. */
  lemma FirstLineJoin(line: string, rest: string)
    requires OneLine(line) && ESC !in line
    requires OnlyBreaks(rest) && ESC !in rest
    ensures var lines := [line] + Split(rest, '\n');
      && Join(lines, '\n') == line + "\n" + rest
      && forall k | 0 <= k < |lines| :: OneLine(lines[k]) && ESC !in lines[k]
  {
    var pieces := Split(rest, '\n');
    JoinSplit(rest, '\n');
    PiecesAreLines(rest);
    JoinCons(line, pieces, '\n');
    var lines := [line] + pieces;
    forall k | 1 <= k < |lines| ensures OneLine(lines[k]) && ESC !in lines[k] {
      assert lines[k] == pieces[k - 1];
    }
  }

  /** The filter on a single line. */
  lemma FilterKeptSingle(line: string)
    ensures FilterKept([line]) == if Keep(line) then [line] else []
  {
    assert [line][1..] == [];
  }

  /** The text of a listing whose every line ends with a line feed, as `echo` and `nvm list` print it. */
  function Unlines(lines: seq<string>): string {
    if lines == [] then "" else lines[0] + "\n" + Unlines(lines[1..])
  }

  /** What the parser makes of one line of a listing by itself: its token, or nothing. */
  function CleanLine(line: string): seq<string> {
    FilterKept([Trim(StripLineArrows(line, true))])
  }

  /** The tokens of each line by itself, in order. */
  function CleanLines(lines: seq<string>): seq<string> {
    if lines == [] then [] else CleanLine(lines[0]) + CleanLines(lines[1..])
  }

  /** A listing without escapes whose lines hold no other line terminator is parsed
      line by line: the tokens are those of its lines, in order. */
  lemma {:induction false} ParseUnlines(lines: seq<string>)
    requires forall k | 0 <= k < |lines| :: OneLine(lines[k]) && ESC !in lines[k]
    ensures OnlyBreaks(Unlines(lines)) && ESC !in Unlines(lines)
    ensures ParseVersions(Unlines(lines)) == CleanLines(lines)
  {
    if lines == [] {
      ParseEmpty();
    } else {
      var rest := lines[1..];
      assert forall k | 0 <= k < |rest| :: rest[k] == lines[k + 1];
      ParseUnlines(rest);
      ParseFirstLine(lines[0], Unlines(rest));
    }
  }
}
