/**
 * Properties of the parser's specification functions: what each round of
 * the tokenizing loop keeps, what the whole parse of a line yields, and
 * how it compares with the reference definition of a line's words.
 */
module ParserLemmas {
  import opened CLib
  import opened Tokens
  import opened Parser

  /** t is s with some blank (whitespace or NUL) cells set to NUL, and nothing else changed. */
  ghost predicate OnlyBlanksNulled(s: seq<char>, t: seq<char>) {
    |t| == |s| &&
    forall k :: 0 <= k < |s| ==> t[k] == s[k] || (t[k] == NUL && (s[k] == NUL || IsSpace(s[k])))
  }

  lemma OnlyBlanksNulledTrans(s: seq<char>, t: seq<char>, u: seq<char>)
    requires OnlyBlanksNulled(s, t) && OnlyBlanksNulled(t, u)
    ensures OnlyBlanksNulled(s, u)
  {
  }

  /** Nulling blank cells does not move the first blank after any position. */
  lemma BlankFromStable(s: seq<char>, t: seq<char>, i: nat)
    requires Terminated(s) && Terminated(t) && i < |s|
    requires OnlyBlanksNulled(s, t)
    ensures BlankFrom(t, i) == BlankFrom(s, i)
  {
    var b := BlankFrom(s, i);
    assert t[b] == NUL || IsSpace(t[b]);
    assert forall k :: i <= k < b ==> t[k] == s[k];
  }

  /** `set_null` only ever writes over a blank. */
  lemma SetNullAtOnlyBlank(s: seq<char>, i: nat)
    requires Terminated(s) && i < |s|
    ensures OnlyBlanksNulled(s, SetNullAt(s, i))
  {
  }

  // ---------------------------------------------------------------------
  // The tokenizing loop
  // ---------------------------------------------------------------------

  /** The loop only appends to the stored starts, and appends one exactly when it runs. */
  lemma {:induction false} TokenizeKeepsStarts(s: seq<char>, p: nat, end: int, starts: seq<nat>)
    requires Terminated(s) && p <= |s| && end < |s|
    ensures var r := Tokenize(s, p, end, starts);
      |r.1| >= |starts| && r.1[..|starts|] == starts && (p < end <==> |r.1| > |starts|)
    decreases end - p
  {
    if p < end {
      var q := BlankFrom(s, p);
      var s' := s[q := NUL];
      var next := SkipSpace(s', q + 1, end);
      var st := starts + [q + 1];
      var r := Tokenize(s', next, end, st);
      TokenizeStep(s, p, end, starts, q, s', next);
      TokenizeKeepsStarts(s', next, end, st);
      assert r.1[..|starts|] == r.1[..|st|][..|starts|];
    } else {
      assert Tokenize(s, p, end, starts).1 == starts;
    }
  }

  /** The loop never touches the cells before `null_pos`. */
  lemma {:induction false} TokenizeFrame(s: seq<char>, p: nat, end: int, starts: seq<nat>)
    requires Terminated(s) && p <= |s| && end < |s|
    ensures forall k :: 0 <= k < p ==> Tokenize(s, p, end, starts).0[k] == s[k]
    decreases end - p
  {
    if p < end {
      var q := BlankFrom(s, p);
      var s' := s[q := NUL];
      var next := SkipSpace(s', q + 1, end);
      TokenizeFrame(s', next, end, starts + [q + 1]);
    }
  }

  /** The loop only nulls blank cells. */
  lemma {:induction false} TokenizeOnlyBlanks(s: seq<char>, p: nat, end: int, starts: seq<nat>)
    requires Terminated(s) && p <= |s| && end < |s|
    ensures OnlyBlanksNulled(s, Tokenize(s, p, end, starts).0)
    decreases end - p
  {
    if p < end {
      var q := BlankFrom(s, p);
      var s' := s[q := NUL];
      var next := SkipSpace(s', q + 1, end);
      TokenizeOnlyBlanks(s', next, end, starts + [q + 1]);
      OnlyBlanksNulledTrans(s, s', Tokenize(s', next, end, starts + [q + 1]).0);
    }
  }

  /** Every start that `r` stores from index `from` on is one past a NUL of its buffer. */
  ghost predicate StartsFollowNul(r: (seq<char>, seq<nat>), from: nat) {
    forall j :: from <= j < |r.1| ==> 1 <= r.1[j] <= |r.0| && r.0[r.1[j] - 1] == NUL
  }

  /** Every start the loop stores is one past a cell it has set to NUL. */
  lemma {:induction false} TokenizeStartsFollowNul(s: seq<char>, p: nat, end: int, starts: seq<nat>)
    requires Terminated(s) && p <= |s| && end < |s|
    ensures StartsFollowNul(Tokenize(s, p, end, starts), |starts|)
    decreases end - p
  {
    if p < end {
      var q := BlankFrom(s, p);
      var s' := s[q := NUL];
      var next := SkipSpace(s', q + 1, end);
      var st := starts + [q + 1];
      var r := Tokenize(s', next, end, st);
      TokenizeStep(s, p, end, starts, q, s', next);
      assert r.1[|starts|] == q + 1 && r.0[q] == NUL by {
        TokenizeKeepsStarts(s', next, end, st);
        assert r.1[|starts|] == r.1[..|st|][|starts|];
        TokenizeFrame(s', next, end, st);
      }
      TokenizeStartsFollowNul(s', next, end, st);
      assert StartsFollowNul(r, |starts|);
    }
  }

  /**
   * On a stretch with no NUL that ends in whitespace at `end`, the loop
   * stores one start per word of [p, end) when it starts at a word.
   */
  lemma {:induction false} TokenizeWords(s: seq<char>, p: nat, end: int, starts: seq<nat>)
    requires Terminated(s) && p <= |s| && end < |s|
    requires p < end ==> !IsSpace(s[p]) && IsSpace(s[end]) && forall k :: p <= k < end ==> s[k] != NUL
    ensures |Tokenize(s, p, end, starts).1| == |starts| + if p < end then |WordsIn(s, p, end)| else 0
    decreases end - p
  {
    if p < end {
      var q := BlankFrom(s, p);
      var s' := s[q := NUL];
      var next := SkipSpace(s', q + 1, end);
      WordsRound(s, p, end, q, s', next);
      TokenizeStep(s, p, end, starts, q, s', next);
      TokenizeWords(s', next, end, starts + [q + 1]);
    } else {
      TokenizeKeepsStarts(s, p, end, starts);
    }
  }

  /**
   * One round of the loop seen on the words: the stretch from the word
   * start p is the word `s[p..q]` followed by the words from the next word
   * start `next` (none once `next` reaches `end`).
   */
  lemma WordsRound(s: seq<char>, p: nat, end: int, q: nat, s': seq<char>, next: nat)
    requires Terminated(s) && p < end < |s|
    requires !IsSpace(s[p]) && IsSpace(s[end]) && forall k :: p <= k < end ==> s[k] != NUL
    requires q == BlankFrom(s, p) && s' == s[q := NUL] && next == SkipSpace(s', q + 1, end)
    ensures q < end ==> q < next && next <= end && forall k :: next <= k < end ==> s'[k] != NUL
    ensures next < end ==> !IsSpace(s'[next]) && IsSpace(s'[end])
    ensures WordsIn(s, p, end) == [s[p..q]] + if next < end then WordsIn(s', next, end) else []
  {
    assert q <= end;
    if q < end {
      assert forall k :: q <= k < next ==> IsSpace(s[k]) by {
        assert forall k :: q < k < next ==> s'[k] == s[k];
      }
      WordsInSplit(s, p, q, next, end);
      WordsInFrame(s, s', next, end);
    } else {
      WordsInSplit(s, p, q, q, end);
    }
  }

  /** The first argument of a round is the word it ends with NUL. */
  lemma FirstArgument(s: seq<char>, p: nat, end: int, starts: seq<nat>, q: nat)
    requires Terminated(s) && p < end < |s| && q == BlankFrom(s, p) && q <= end
    requires forall k :: p <= k < q ==> s[k] != NUL
    ensures q < |s| && CString(Tokenize(s, p, end, starts).0, p) == s[p..q]
  {
    var s' := s[q := NUL];
    var next := SkipSpace(s', q + 1, end);
    var r := Tokenize(s', next, end, starts + [q + 1]);
    TokenizeStep(s, p, end, starts, q, s', next);
    TokenizeFrame(s', next, end, starts + [q + 1]);
    CStringBeforeNul(s, q, r.0, p, next);
  }

  /** A buffer that agrees with `s[q := NUL]` below `next` reads `s[p..q]` from p. */
  lemma CStringBeforeNul(s: seq<char>, q: nat, t: seq<char>, p: nat, next: nat)
    requires Terminated(t) && p <= q < next <= |t| == |s|
    requires forall k :: 0 <= k < next ==> t[k] == s[q := NUL][k]
    requires forall k :: p <= k < q ==> s[k] != NUL
    ensures CString(t, p) == s[p..q]
  {
    CStringAt(t, p, q - p);
    assert t[p..q] == s[p..q];
  }

  /** No cell of s in [lo, hi) holds NUL. */
  ghost predicate NulFree(s: seq<char>, lo: int, hi: int) {
    0 <= lo && hi <= |s| && forall k :: lo <= k < hi ==> s[k] != NUL
  }

  /** The character after index k. */
  ghost function Succ(s: seq<char>, k: int): (r: char)
    requires 0 <= k < |s| - 1
  {
    s[k + 1]
  }

  /** Between lo and hi, no whitespace character of s is followed by another. */
  ghost predicate SingleSpaced(s: seq<char>, lo: int, hi: int) {
    0 <= lo && hi < |s| &&
    forall k {:trigger Succ(s, k)} :: lo <= k < hi && IsSpace(s[k]) ==> !IsSpace(Succ(s, k))
  }

  /**
   * A stretch from the word start p to the whitespace at `end`, free of
   * NUL, whose words are separated by single whitespace characters.
   */
  ghost predicate SingleSpacedStretch(s: seq<char>, p: int, end: int) {
    Terminated(s) && 0 <= p < end < |s| && !IsSpace(s[p]) && IsSpace(s[end]) &&
    NulFree(s, p, end) && SingleSpaced(s, p, end)
  }

  /**
   * When the words of the stretch are separated by single whitespace
   * characters, the start `p` followed by every start the loop stores
   * but the last reads, string by string in the final buffer, exactly
   * the words of the stretch.
   */
  lemma {:induction false} TokenizeSingleSpaced(s: seq<char>, p: nat, end: int, starts: seq<nat>)
    requires SingleSpacedStretch(s, p, end)
    ensures SpelledOut(Tokenize(s, p, end, starts), starts, p, WordsIn(s, p, end))
    decreases end - p, 1
  {
    var q := BlankFrom(s, p);
    assert q <= end;
    if q < end {
      SingleSpacedMore(s, p, end, starts, q);
    } else {
      SingleSpacedLast(s, p, end, starts);
    }
  }

  /** The base case of `TokenizeSingleSpaced`: the stretch holds one word, ended at `end`. */
  lemma SingleSpacedLast(s: seq<char>, p: nat, end: int, starts: seq<nat>)
    requires Terminated(s) && p < end < |s|
    requires !IsSpace(s[p]) && IsSpace(s[end])
    requires NulFree(s, p, end)
    requires BlankFrom(s, p) == end
    ensures SpelledOut(Tokenize(s, p, end, starts), starts, p, WordsIn(s, p, end))
  {
    var s' := s[end := NUL];
    var next := SkipSpace(s', end + 1, end);
    TokenizeStep(s, p, end, starts, end, s', next);
    TokenizeWords(s, p, end, starts);
    FirstArgument(s, p, end, starts, end);
    WordsInSplit(s, p, end, end, end);
  }

  /**
   * The loop's result `r` spells out the words w: starting at p, and then
   * at each start stored after `starts` but the last, the buffer holds
   * the successive words as NUL-terminated strings.
   */
  ghost predicate SpelledOut(r: (seq<char>, seq<nat>), starts: seq<nat>, p: nat, w: seq<seq<char>>) {
    Terminated(r.0) && p < |r.0| &&
    |w| >= 1 && |r.1| == |starts| + |w| && CString(r.0, p) == w[0] &&
    forall j :: |starts| <= j < |r.1| - 1 ==> r.1[j] < |r.0| && CString(r.0, r.1[j]) == w[j - |starts| + 1]
  }

  /** The case of `TokenizeSingleSpaced` where the first word is followed by another. */
  lemma {:induction false} SingleSpacedMore(s: seq<char>, p: nat, end: int, starts: seq<nat>, q: nat)
    requires SingleSpacedStretch(s, p, end)
    requires q == BlankFrom(s, p) && q < end
    ensures SpelledOut(Tokenize(s, p, end, starts), starts, p, WordsIn(s, p, end))
    decreases end - p, 0
  {
    var s' := s[q := NUL];
    var r := Tokenize(s', q + 1, end, starts + [q + 1]);
    var w' := WordsIn(s', q + 1, end);
    SingleSpacedParts(s, p, end, starts, q);
    TokenizeSingleSpaced(s', q + 1, end, starts + [q + 1]);
    SingleSpacedStep(r, starts, p, q + 1, s[p..q], w');
  }

  /** The recursive case of `TokenizeSingleSpaced`: one more word in front. */
  lemma SingleSpacedStep(r: (seq<char>, seq<nat>), starts: seq<nat>, p: nat, x: nat, first: seq<char>, w': seq<seq<char>>)
    requires SpelledOut(r, starts + [x], x, w') && p < |r.0|
    requires r.1[..|starts| + 1] == starts + [x]
    requires CString(r.0, p) == first
    ensures SpelledOut(r, starts, p, [first] + w')
  {
    assert r.1[|starts|] == r.1[..|starts| + 1][|starts|] == x;
  }

  /** What `SingleSpacedMore` needs of one round: the pieces of its inductive step. */
  lemma SingleSpacedParts(s: seq<char>, p: nat, end: int, starts: seq<nat>, q: nat)
    requires SingleSpacedStretch(s, p, end)
    requires q == BlankFrom(s, p) && q < end
    ensures SingleSpacedStretch(s[q := NUL], q + 1, end) &&
      WordsIn(s, p, end) == [s[p..q]] + WordsIn(s[q := NUL], q + 1, end) &&
      Tokenize(s, p, end, starts) == Tokenize(s[q := NUL], q + 1, end, starts + [q + 1]) &&
      |Tokenize(s[q := NUL], q + 1, end, starts + [q + 1]).1| > |starts| &&
      Tokenize(s[q := NUL], q + 1, end, starts + [q + 1]).1[..|starts| + 1] == starts + [q + 1] &&
      CString(Tokenize(s, p, end, starts).0, p) == s[p..q]
  {
    var s' := s[q := NUL];
    SingleSpacedNext(s, p, end, q);
    TokenizeKeepsStarts(s', q + 1, end, starts + [q + 1]);
    TokenizeStep(s, p, end, starts, q, s', q + 1);
    FirstArgument(s, p, end, starts, q);
  }

  /**
   * After the first word of a single-spaced stretch comes one whitespace
   * character and then the next word, which starts a single-spaced
   * stretch of its own in the buffer with the whitespace nulled.
   */
  lemma SingleSpacedNext(s: seq<char>, p: nat, end: int, q: nat)
    requires SingleSpacedStretch(s, p, end)
    requires q == BlankFrom(s, p) && q < end
    ensures SingleSpacedStretch(s[q := NUL], q + 1, end) && SkipSpace(s[q := NUL], q + 1, end) == q + 1
    ensures WordsIn(s, p, end) == [s[p..q]] + WordsIn(s[q := NUL], q + 1, end)
  {
    SingleSpacedNextStretch(s, p, end, q);
    assert IsSpace(s[q]) && !IsSpace(Succ(s, q));
    SingleSpacedNextWords(s, p, end, q);
  }

  /** The stretch after the first word and its single whitespace character. */
  lemma SingleSpacedNextStretch(s: seq<char>, p: nat, end: int, q: nat)
    requires SingleSpacedStretch(s, p, end)
    requires q == BlankFrom(s, p) && q < end
    ensures SingleSpacedStretch(s[q := NUL], q + 1, end)
  {
    var s' := s[q := NUL];
    assert !IsSpace(Succ(s, q));
    assert NulFree(s', q + 1, end) by {
      forall k | q + 1 <= k < end
        ensures s'[k] != NUL
      {
        assert s'[k] == s[k];
      }
    }
    assert SingleSpaced(s', q + 1, end) by {
      forall k | q + 1 <= k < end
        ensures IsSpace(s'[k]) ==> !IsSpace(Succ(s', k))
      {
        assert Succ(s', k) == Succ(s, k);
      }
    }
  }

  /** The words of the stretch are its first word and the words after the one whitespace that follows it. */
  lemma SingleSpacedNextWords(s: seq<char>, p: nat, end: int, q: nat)
    requires p < q && q + 1 < end < |s|
    requires forall k :: p <= k < q ==> !IsSpace(s[k])
    requires IsSpace(s[q]) && !IsSpace(s[q + 1])
    ensures WordsIn(s, p, end) == [s[p..q]] + WordsIn(s[q := NUL], q + 1, end)
  {
    WordsInSplit(s, p, q, q + 1, end);
    WordsInFrame(s, s[q := NUL], q + 1, end);
  }

  // ---------------------------------------------------------------------
  // The whole parse of a line
  // ---------------------------------------------------------------------

  /** The line proper: the buffer up to its first NUL. */
  function Line(s: seq<char>): (r: seq<char>)
    requires Terminated(s)
    ensures NUL !in r && |r| < |s| && s[|r|] == NUL
  {
    s[..Strlen(s)]
  }

  /** `strchrnul` finds c inside the line exactly when the line holds c. */
  lemma StrChrNulInLine(s: seq<char>, c: char)
    requires Terminated(s) && c != NUL
    ensures StrChrNul(s, c) <= Strlen(s)
    ensures s[StrChrNul(s, c)] != NUL <==> c in Line(s)
    ensures c !in Line(s) ==> StrChrNul(s, c) == Strlen(s)
  {
    var r, n := StrChrNul(s, c), Strlen(s);
    assert r <= n;
    if c in Line(s) {
      var k :| 0 <= k < n && s[k] == c;
      assert r <= k;
    }
    if s[r] != NUL {
      assert Line(s)[r] == c;
    }
  }

  /** `p.background` is set exactly when the line holds an `&`. */
  lemma BackgroundIffAmpersand(s: seq<char>)
    requires Terminated(s)
    ensures ParseLine(s).program.background <==> '&' in Line(s)
  {
    StrChrNulInLine(s, '&');
  }

  /**
   * `argumentsEnd` is the first marker's index when the `&` comes before the
   * `<`, and one less than it otherwise; a line without markers ends its
   * argument region at its last character (the newline of a read line).
   */
  lemma LineEndCases(s: seq<char>)
    requires Terminated(s)
    ensures var amp, i, o := StrChrNul(s, '&'), StrChrNul(s, '<'), StrChrNul(s, '>');
      var first := Min(amp, Min(i, o));
      (amp < i ==> LineEnd(s) == first) &&
      (i <= amp ==> LineEnd(s) == first - 1) &&
      ('&' !in Line(s) && '<' !in Line(s) && '>' !in Line(s) ==> LineEnd(s) == Strlen(s) - 1)
  {
    StrChrNulInLine(s, '&');
    StrChrNulInLine(s, '<');
    StrChrNulInLine(s, '>');
  }

  /** In a line without markers nothing is marked and the arguments run up to the last character. */
  lemma NoMarkers(s: seq<char>)
    requires Terminated(s)
    requires '&' !in Line(s) && '<' !in Line(s) && '>' !in Line(s)
    ensures FileName(s, '<') == FileName(s, '>') == StrChrNul(s, '&') == Strlen(s)
    ensures Marked(s) == s && LineEnd(s) == Strlen(s) - 1
  {
    StrChrNulInLine(s, '&');
    StrChrNulInLine(s, '<');
    StrChrNulInLine(s, '>');
    var n := Strlen(s);
    assert BlankFrom(s, n) == n;
    assert s[n := NUL] == s;
  }

  /** A line yields no arguments, and so is never forked, exactly when `argumentsEnd <= 0`. */
  lemma ZeroArguments(s: seq<char>)
    requires Terminated(s)
    ensures ParseLine(s).program.argc == 0 <==> LineEnd(s) <= 0
    ensures Dispatched(ParseLine(s).program) <==> LineEnd(s) > 0
  {
    TokenizeKeepsStarts(Marked(s), 0, LineEnd(s), []);
  }

  /** A line that starts with `&`, `<` or `>` is rejected as invalid input. */
  lemma LeadingMarkerRejected(s: seq<char>)
    requires Terminated(s) && s[0] in "&<>"
    ensures LineEnd(s) <= 0
    ensures ParseLine(s).program.argc == 0 && !Dispatched(ParseLine(s).program)
  {
    ZeroArguments(s);
  }

  lemma MarkedOnlyBlanks(s: seq<char>)
    requires Terminated(s)
    ensures OnlyBlanksNulled(s, Marked(s))
  {
    var s1 := SetNullAt(s, FileName(s, '<'));
    var s2 := SetNullAt(s1, FileName(s, '>'));
    SetNullAtOnlyBlank(s, FileName(s, '<'));
    SetNullAtOnlyBlank(s1, FileName(s, '>'));
    SetNullAtOnlyBlank(s2, StrChrNul(s, '&'));
    OnlyBlanksNulledTrans(s, s1, s2);
    OnlyBlanksNulledTrans(s, s2, Marked(s));
  }

  /** The parse only ever writes NUL over whitespace or NUL, so every other character survives. */
  lemma ParseOnlyBlanksNulled(s: seq<char>)
    requires Terminated(s)
    ensures OnlyBlanksNulled(s, ParseLine(s).buffer)
    ensures forall k :: 0 <= k < |s| && s[k] != NUL && !IsSpace(s[k]) ==> ParseLine(s).buffer[k] == s[k]
  {
    MarkedOnlyBlanks(s);
    TokenizeOnlyBlanks(Marked(s), 0, LineEnd(s), []);
    OnlyBlanksNulledTrans(s, Marked(s), ParseLine(s).buffer);
  }

  /** `set_null(background)` leaves the `&` itself in place. */
  lemma AmpersandKept(s: seq<char>)
    requires Terminated(s) && ParseLine(s).program.background
    ensures ParseLine(s).buffer[StrChrNul(s, '&')] == '&'
  {
    ParseOnlyBlanksNulled(s);
  }

  /**
   * A run of non-blank characters of s that some later buffer t, changed
   * only by nulling blanks, has NUL-terminated, reads from t as that run.
   */
  lemma RunKept(s: seq<char>, t: seq<char>, f: nat)
    requires Terminated(s) && Terminated(t) && f < |s| && OnlyBlanksNulled(s, t)
    requires t[BlankFrom(s, f)] == NUL
    ensures CString(t, f) == s[f..BlankFrom(s, f)]
  {
    var b := BlankFrom(s, f);
    assert forall k :: f <= k < b ==> t[k] == s[k];
    CStringAt(t, f, b - f);
    assert t[f..b] == s[f..b];
  }

  /** NUL written by the marking stays NUL to the end of the parse. */
  lemma MarkingsLast(s: seq<char>)
    requires Terminated(s)
    ensures var r := ParseLine(s);
      r.buffer[BlankFrom(s, FileName(s, '<'))] == NUL && r.buffer[BlankFrom(s, FileName(s, '>'))] == NUL
  {
    var inFile, outFile := FileName(s, '<'), FileName(s, '>');
    var s1 := SetNullAt(s, inFile);
    var s2 := SetNullAt(s1, outFile);
    var fin := ParseLine(s).buffer;
    SetNullAtOnlyBlank(s, inFile);
    SetNullAtOnlyBlank(s1, outFile);
    SetNullAtOnlyBlank(s2, StrChrNul(s, '&'));
    TokenizeOnlyBlanks(Marked(s), 0, LineEnd(s), []);
    OnlyBlanksNulledTrans(s2, Marked(s), fin);
    OnlyBlanksNulledTrans(s1, s2, fin);
    BlankFromStable(s, s1, outFile);
  }

  /**
   * Each redirection target, read as a NUL-terminated string of the final
   * buffer, is the run of non-whitespace characters that starts where
   * `parse_redirect` stopped (empty when the symbol is absent).
   */
  lemma FileNamesAreRuns(s: seq<char>)
    requires Terminated(s)
    ensures var r := ParseLine(s);
      CString(r.buffer, r.program.inputFile) == s[r.program.inputFile..BlankFrom(s, r.program.inputFile)] &&
      CString(r.buffer, r.program.outputFile) == s[r.program.outputFile..BlankFrom(s, r.program.outputFile)]
  {
    var r := ParseLine(s);
    ParseOnlyBlanksNulled(s);
    MarkingsLast(s);
    RunKept(s, r.buffer, r.program.inputFile);
    RunKept(s, r.buffer, r.program.outputFile);
  }

  /** Every argument after the first starts one character after a NUL the parse wrote. */
  lemma ArgumentsFollowNul(s: seq<char>)
    requires Terminated(s)
    ensures var r := ParseLine(s);
      forall k :: 0 < k < r.program.argc ==>
        r.argv[k].At? && 1 <= r.argv[k].offset <= |s| && r.buffer[r.argv[k].offset - 1] == NUL
  {
    var t := Tokenize(Marked(s), 0, LineEnd(s), []);
    TokenizeStartsFollowNul(Marked(s), 0, LineEnd(s), []);
    var r := ParseLine(s);
    assert r.buffer == t.0 && r.argv == ArgvOf(t.1) && r.program.argc == |t.1|;
    forall k | 0 < k < r.program.argc
      ensures r.argv[k].At? && 1 <= r.argv[k].offset <= |s| && r.buffer[r.argv[k].offset - 1] == NUL
    {
      assert r.argv[k] == At(t.1[k - 1]);
    }
  }

  /**
   * A line whose first character is whitespace and whose argument region
   * is not empty gets an empty first argument: `argv[0]` is the buffer,
   * and its first cell has been set to NUL.
   */
  lemma LeadingSpaceEmptyArgument(s: seq<char>)
    requires Terminated(s) && IsSpace(s[0]) && LineEnd(s) > 0
    ensures var r := ParseLine(s);
      r.program.argc >= 1 && r.argv[0] == At(0) && CString(r.buffer, 0) == []
  {
    var m := Marked(s);
    var end := LineEnd(s);
    MarkedOnlyBlanks(s);
    assert m[0] == NUL || IsSpace(m[0]);
    assert BlankFrom(m, 0) == 0;
    var m' := m[0 := NUL];
    var next := SkipSpace(m', 1, end);
    TokenizeStep(m, 0, end, [], 0, m', next);
    TokenizeKeepsStarts(m, 0, end, []);
    TokenizeFrame(m', next, end, [] + [0 + 1]);
    var fin := Tokenize(m, 0, end, []).0;
    assert fin[0] == NUL;
    CStringAt(fin, 0, 0);
  }

  /**
   * A read line: it has more than its newline, ends with the newline,
   * and holds none of `&`, `<`, `>`.
   */
  ghost predicate PlainLine(s: seq<char>) {
    Terminated(s) && Strlen(s) >= 2 && s[Strlen(s) - 1] == '\n' &&
    '&' !in Line(s) && '<' !in Line(s) && '>' !in Line(s)
  }

  /** The words of a plain line are the words before its newline. */
  lemma LineWords(s: seq<char>)
    requires PlainLine(s)
    ensures Words(Line(s)) == WordsIn(s, 0, Strlen(s) - 1)
  {
    var n := Strlen(s);
    WordsInFrame(Line(s), s, 0, n);
    WordsInTrailing(s, 0, n - 1, n);
  }

  /**
   * Tokenization count: a plain line gets one argument per word, plus the
   * empty first argument when the line starts with whitespace; `argv`
   * ends with NULL.
   */
  lemma TokenCount(s: seq<char>)
    requires PlainLine(s)
    ensures var r := ParseLine(s);
      r.program.argc == |Words(Line(s))| + (if IsSpace(s[0]) then 1 else 0) &&
      r.argv[r.program.argc] == Null
  {
    var end := Strlen(s) - 1;
    NoMarkers(s);
    LineWords(s);
    assert ParseLine(s).program.argc == |Tokenize(s, 0, end, []).1|;
    if !IsSpace(s[0]) {
      TokenizeWords(s, 0, end, []);
    } else {
      LeadingSpaceCount(s, end);
    }
  }

  /** A stretch that starts with whitespace gets one (empty) argument more than it has words. */
  lemma LeadingSpaceCount(s: seq<char>, end: nat)
    requires Terminated(s) && 0 < end < |s| && IsSpace(s[0]) && IsSpace(s[end])
    requires forall k :: 0 <= k < end ==> s[k] != NUL
    ensures |Tokenize(s, 0, end, []).1| == 1 + |WordsIn(s, 0, end)|
  {
    var s' := s[0 := NUL];
    assert BlankFrom(s, 0) == 0;
    var next := SkipSpace(s', 1, end);
    TokenizeStep(s, 0, end, [], 0, s', next);
    LeadingSpaceWords(s, end, s', next);
    TokenizeWords(s', next, end, [] + [0 + 1]);
  }

  /** Skipping the leading whitespace of a stretch does not change its words. */
  lemma LeadingSpaceWords(s: seq<char>, end: nat, s': seq<char>, next: nat)
    requires Terminated(s) && 0 < end < |s| && IsSpace(s[0]) && IsSpace(s[end])
    requires forall k :: 0 <= k < end ==> s[k] != NUL
    requires s' == s[0 := NUL] && next == SkipSpace(s', 1, end)
    ensures next < end ==> !IsSpace(s'[next]) && IsSpace(s'[end]) && forall k :: next <= k < end ==> s'[k] != NUL
    ensures WordsIn(s, 0, end) == if next < end then WordsIn(s', next, end) else []
  {
    assert next <= end;
    assert forall k :: 0 <= k < next ==> IsSpace(s[k]) by {
      assert forall k :: 1 <= k < next ==> IsSpace(s'[k]) && s'[k] == s[k];
    }
    WordsInSkip(s, 0, next, end);
    WordsInFrame(s, s', next, end);
  }

  /**
   * On a plain line that starts with a word and whose words, up to the
   * end e of the last one, are separated by single whitespace characters
   * (any whitespace may follow e), `argv[k]` is exactly the k-th word,
   * NUL-terminated in place.
   */
  lemma SingleSpacedArguments(s: seq<char>, e: nat)
    requires PlainLine(s) && !IsSpace(s[0])
    requires 0 < e < Strlen(s) && SingleSpaced(s, 0, e)
    requires forall k :: e <= k < Strlen(s) ==> IsSpace(s[k])
    ensures var r := ParseLine(s);
      r.program.argc == |Words(Line(s))| &&
      forall k :: 0 <= k < r.program.argc ==>
        r.argv[k].At? && r.argv[k].offset < |s| && CString(r.buffer, r.argv[k].offset) == Words(Line(s))[k]
  {
    var end := Strlen(s) - 1;
    NoMarkers(s);
    LineWords(s);
    WordsInTrailing(s, 0, e, end);
    TokenizeTrailing(s, 0, e, end, []);
    TokenizeSingleSpaced(s, 0, e, []);
    SpelledArgv(ParseLine(s), Tokenize(s, 0, e, []), Words(Line(s)));
  }

  /**
   * Whitespace between the end of the last word and `argumentsEnd` adds
   * no round: the loop ends with the same buffer and starts whether it
   * stops at e or at `end`.
   */
  lemma {:induction false} TokenizeTrailing(s: seq<char>, p: nat, e: nat, end: nat, starts: seq<nat>)
    requires Terminated(s) && p < e <= end < |s|
    requires forall k :: e <= k <= end ==> IsSpace(s[k])
    ensures Tokenize(s, p, e, starts) == Tokenize(s, p, end, starts)
    decreases e - p
  {
    var q := BlankFrom(s, p);
    assert IsSpace(s[e]) && q <= e;
    var s' := s[q := NUL];
    var ne := SkipSpace(s', q + 1, e);
    var nd := SkipSpace(s', q + 1, end);
    TokenizeStep(s, p, e, starts, q, s', ne);
    TokenizeStep(s, p, end, starts, q, s', nd);
    TrailingSkip(s, q, e, end);
    if ne < e {
      TokenizeTrailing(s', ne, e, end, starts + [q + 1]);
    }
  }

  /**
   * The whitespace skip after the nulled blank q: below e it stops where
   * it would stop below `end`, and when it reaches e it reaches `end`.
   */
  lemma TrailingSkip(s: seq<char>, q: nat, e: nat, end: nat)
    requires q <= e <= end < |s|
    requires forall k :: e <= k <= end ==> IsSpace(s[k])
    ensures var s', ne := s[q := NUL], SkipSpace(s[q := NUL], q + 1, e);
      (ne < e ==> SkipSpace(s', q + 1, end) == ne && forall k :: e <= k <= end ==> IsSpace(s'[k])) &&
      (ne >= e ==> SkipSpace(s', q + 1, end) >= end)
  {
    var s' := s[q := NUL];
    var ne := SkipSpace(s', q + 1, e);
    if ne < e {
      SkipSpaceAt(s', q + 1, end, ne);
    } else {
      assert forall k :: q + 1 <= k < end ==> IsSpace(s'[k]);
      SkipSpaceAt(s', q + 1, end, if q + 1 <= end then end else q + 1);
    }
  }

  /** A parse whose tokenizer result spells out w from index 0 has `argv[k]` reading w[k]. */
  lemma SpelledArgv(r: Parsed, t: (seq<char>, seq<nat>), w: seq<seq<char>>)
    requires SpelledOut(t, [], 0, w)
    requires r.buffer == t.0 && r.program.argc == |t.1| && r.argv == ArgvOf(t.1)
    ensures r.program.argc == |w| &&
      forall k :: 0 <= k < r.program.argc ==>
        r.argv[k].At? && r.argv[k].offset < |r.buffer| && CString(r.buffer, r.argv[k].offset) == w[k]
  {
    forall k | 0 <= k < r.program.argc
      ensures r.argv[k].At? && r.argv[k].offset < |r.buffer| && CString(r.buffer, r.argv[k].offset) == w[k]
    {
      if k > 0 {
        assert r.argv[k] == At(t.1[k - 1]);
      }
    }
  }

  /**
   * Arguments keep leftover whitespace: when an argument s[p..q] is
   * followed by the whitespace s[q..next] and then by a word s[next..b],
   * the next argument is stored at q + 1, one past the nulled first blank,
   * and reads the rest of that whitespace followed by the word.
   */
  lemma LeftoverWhitespace(s: seq<char>, p: nat, end: int, starts: seq<nat>, q: nat, next: nat, b: nat)
    requires Terminated(s) && p < end < |s|
    requires q == BlankFrom(s, p) && q < end
    requires next == SkipSpace(s[q := NUL], q + 1, end) && next < end
    requires b == BlankFrom(s, next) && b <= end
    ensures var r := Tokenize(s, p, end, starts);
      |r.1| > |starts| + 1 && r.1[|starts|] == q + 1 && CString(r.0, q + 1) == s[q + 1..b]
  {
    var s' := s[q := NUL];
    var st := starts + [q + 1];
    TokenizeStep(s, p, end, starts, q, s', next);
    assert BlankFrom(s', next) == b by {
      SetNullAtOnlyBlank(s, p);
      BlankFromStable(s, s', next);
    }
    NextRoundReads(s, s', q, next, end, st, b);
    var r := Tokenize(s', next, end, st);
    assert r.1[|starts|] == r.1[..|st|][|starts|];
  }

  /**
   * The loop from `next`, after the blank q was nulled and the whitespace
   * [q + 1, next) skipped: it keeps the stored starts, adds at least one,
   * and leaves the string at q + 1 reading up to the next blank b.
   */
  lemma NextRoundReads(s: seq<char>, s': seq<char>, q: nat, next: nat, end: int, st: seq<nat>, b: nat)
    requires Terminated(s') && |s'| == |s| && q < next < end < |s|
    requires forall k :: q < k < |s| ==> s'[k] == s[k]
    requires forall k :: q + 1 <= k < next ==> IsSpace(s'[k])
    requires b == BlankFrom(s', next) && b <= end
    ensures var r := Tokenize(s', next, end, st);
      |r.1| > |st| && r.1[..|st|] == st && CString(r.0, q + 1) == s[q + 1..b]
  {
    var r := Tokenize(s', next, end, st);
    TokenizeKeepsStarts(s', next, end, st);
    FirstArgument(s', next, end, st, b);
    TokenizeFrame(s', next, end, st);
    RunThenWord(s, s', r.0, q + 1, next, b);
  }

  /**
   * A string read from lo, where t agrees with u on a run of whitespace
   * [lo, next) and reads u's NUL-free stretch [next, b) from next, is that
   * whole stretch of u (which agrees with s there).
   */
  lemma RunThenWord(s: seq<char>, u: seq<char>, t: seq<char>, lo: nat, next: nat, b: nat)
    requires Terminated(t) && lo <= next <= b < |t| == |u| == |s|
    requires forall k :: lo <= k < b ==> u[k] == s[k]
    requires forall k :: lo <= k < next ==> t[k] == u[k] && IsSpace(u[k])
    requires forall k :: next <= k < b ==> u[k] != NUL
    requires CString(t, next) == u[next..b]
    ensures CString(t, lo) == s[lo..b]
  {
    CStringIs(t, next, u[next..b]);
    forall k | next <= k < b
      ensures t[k] == u[k]
    {
      assert t[next..b][k - next] == t[k];
    }
    CStringAt(t, lo, b - lo);
    assert t[lo..b] == s[lo..b];
  }

  /**
   * The leftover whitespace on a line: `ls  -l` with two spaces gives the
   * arguments `ls` and ` -l`.
   */
  lemma LeftoverWhitespaceExample()
    ensures var r := ParseLine("ls  -l\n" + [NUL]);
      r.program.argc == 2 && r.argv == [At(0), At(3), Null] &&
      CString(r.buffer, 0) == "ls" && CString(r.buffer, 3) == " -l"
  {
    var s := "ls  -l\n" + [NUL];
    assert s == ['l', 's', ' ', ' ', '-', 'l', '\n', NUL];
    var s'' := ExampleTokens(s);
    var r := ParseLine(s);
    assert r.buffer == s'' && r.program.argc == 2 && r.argv == ArgvOf([3, 7]);
    assert ArgvOf([3, 7]) == [At(0), At(3), Null];
    ExampleStrings(s'');
  }

  /** The two arguments read from the example's final buffer. */
  lemma ExampleStrings(b: seq<char>)
    requires b == ['l', 's', NUL, ' ', '-', 'l', NUL, NUL]
    ensures CString(b, 0) == "ls" && CString(b, 3) == " -l"
  {
    assert b[0] == 'l' && b[1] == 's' && b[2] == NUL;
    assert b[3] == ' ' && b[4] == '-' && b[5] == 'l' && b[6] == NUL;
    CStringAt(b, 0, 2);
    CStringAt(b, 3, 3);
  }

  /** The tokenizing loop on the example line. */
  lemma ExampleTokens(s: seq<char>) returns (s'': seq<char>)
    requires s == ['l', 's', ' ', ' ', '-', 'l', '\n', NUL]
    ensures Marked(s) == s && LineEnd(s) == 6
    ensures s'' == ['l', 's', NUL, ' ', '-', 'l', NUL, NUL]
    ensures Tokenize(s, 0, 6, []) == (s'', [3, 7])
  {
    assert Strlen(s) == 7;
    assert Line(s) == s[..7];
    NoMarkers(s);
    assert BlankFrom(s, 2) == 2 && BlankFrom(s, 1) == 2 && BlankFrom(s, 0) == 2;
    var s' := s[2 := NUL];
    assert SkipSpace(s', 4, 6) == 4 && SkipSpace(s', 3, 6) == 4;
    TokenizeStep(s, 0, 6, [], 2, s', 4);
    assert BlankFrom(s', 6) == 6 && BlankFrom(s', 5) == 6 && BlankFrom(s', 4) == 6;
    s'' := s'[6 := NUL];
    assert SkipSpace(s'', 7, 6) == 7;
    TokenizeStep(s', 4, 6, [3], 6, s'', 7);
    assert [] + [3] == [3] && [3] + [7] == [3, 7];
  }

  /**
   * The `&` lands inside the last argument: in `sleep 5&`, the NUL after
   * the `&` marker goes on the newline, and the last round's `set_null`
   * runs on to it, so `argv[1]` reads `5&`.
   */
  lemma AmpersandArgumentExample()
    ensures var r := ParseLine("sleep 5&\n" + [NUL]);
      r.program.background && r.program.argc == 2 && r.argv == [At(0), At(6), Null] &&
      CString(r.buffer, 0) == "sleep" && CString(r.buffer, 6) == "5&"
  {
    var s := "sleep 5&\n" + [NUL];
    assert s == ['s', 'l', 'e', 'e', 'p', ' ', '5', '&', '\n', NUL];
    var b := AmpersandTokens(s);
    var r := ParseLine(s);
    assert r.buffer == b && r.program.argc == 2 && r.argv == ArgvOf([6, 9]);
    assert ArgvOf([6, 9]) == [At(0), At(6), Null];
    AmpersandStrings(b);
  }

  /** The marking and the tokenizing loop on the `sleep 5&` line. */
  lemma AmpersandTokens(s: seq<char>) returns (b: seq<char>)
    requires s == ['s', 'l', 'e', 'e', 'p', ' ', '5', '&', '\n', NUL]
    ensures s[StrChrNul(s, '&')] == '&' && LineEnd(s) == 7
    ensures b == ['s', 'l', 'e', 'e', 'p', NUL, '5', '&', NUL, NUL]
    ensures Tokenize(Marked(s), 0, 7, []) == (b, [6, 9])
  {
    AmpersandMarks(s);
    AmpersandMarked(s);
    b := AmpersandLoop(s[8 := NUL]);
  }

  /** Where `strchrnul` finds the three markers of the `sleep 5&` line, and its `argumentsEnd`. */
  lemma AmpersandMarks(s: seq<char>)
    requires s == ['s', 'l', 'e', 'e', 'p', ' ', '5', '&', '\n', NUL]
    ensures StrChrNul(s, '&') == 7 && StrChrNul(s, '<') == 9 && StrChrNul(s, '>') == 9
    ensures LineEnd(s) == 7
  {
    assert Strlen(s) == 9;
    assert Line(s) == s[..9];
    StrChrNulInLine(s, '<');
    StrChrNulInLine(s, '>');
    assert ScanFor(s, '&', 7) == 7;
  }

  /** The marking of the `sleep 5&` line nulls only the newline. */
  lemma AmpersandMarked(s: seq<char>)
    requires s == ['s', 'l', 'e', 'e', 'p', ' ', '5', '&', '\n', NUL]
    requires StrChrNul(s, '&') == 7 && StrChrNul(s, '<') == 9 && StrChrNul(s, '>') == 9
    ensures Marked(s) == s[8 := NUL]
  {
    assert FileName(s, '<') == 9 && FileName(s, '>') == 9;
    assert BlankFrom(s, 9) == 9 && s[9 := NUL] == s;
    assert BlankFrom(s, 8) == 8 && BlankFrom(s, 7) == 8;
  }

  /** The tokenizing loop on the marked `sleep 5&` line. */
  lemma AmpersandLoop(m: seq<char>) returns (b: seq<char>)
    requires m == ['s', 'l', 'e', 'e', 'p', ' ', '5', '&', NUL, NUL]
    ensures b == ['s', 'l', 'e', 'e', 'p', NUL, '5', '&', NUL, NUL]
    ensures Tokenize(m, 0, 7, []) == (b, [6, 9])
  {
    assert BlankFrom(m, 5) == 5 && BlankFrom(m, 4) == 5 && BlankFrom(m, 3) == 5;
    assert BlankFrom(m, 2) == 5 && BlankFrom(m, 1) == 5 && BlankFrom(m, 0) == 5;
    b := m[5 := NUL];
    assert SkipSpace(b, 6, 7) == 6;
    TokenizeStep(m, 0, 7, [], 5, b, 6);
    assert BlankFrom(b, 8) == 8 && BlankFrom(b, 7) == 8 && BlankFrom(b, 6) == 8;
    assert b[8 := NUL] == b && SkipSpace(b, 9, 7) == 9;
    TokenizeStep(b, 6, 7, [6], 8, b, 9);
    assert [] + [6] == [6] && [6] + [9] == [6, 9];
  }

  /** The two arguments read from the `sleep 5&` line's final buffer. */
  lemma AmpersandStrings(b: seq<char>)
    requires b == ['s', 'l', 'e', 'e', 'p', NUL, '5', '&', NUL, NUL]
    ensures CString(b, 0) == "sleep" && CString(b, 6) == "5&"
  {
    CStringAt(b, 0, 5);
    CStringAt(b, 6, 2);
  }

  /**
   * A line read without its newline loses a last word of one character:
   * `argumentsEnd` is one before the terminator, so for `a b` the loop
   * ends before the `b`, and `argv` holds only `a`.
   */
  lemma MissingNewlineExample()
    ensures var r := ParseLine(['a', ' ', 'b', NUL]);
      r.program.argc == 1 && r.argv == [At(0), Null] && CString(r.buffer, 0) == "a"
  {
    var s := ['a', ' ', 'b', NUL];
    assert Line(s) == s[..3];
    NoMarkers(s);
    assert BlankFrom(s, 1) == 1 && BlankFrom(s, 0) == 1;
    var b := s[1 := NUL];
    assert SkipSpace(b, 2, 2) == 2;
    TokenizeStep(s, 0, 2, [], 1, b, 2);
    assert [] + [2] == [2] && Tokenize(b, 2, 2, [2]) == (b, [2]);
    assert ArgvOf([2]) == [At(0), Null];
    CStringAt(b, 0, 1);
  }
}
