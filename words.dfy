/**
 * An independent reference definition of "the arguments of a line": its
 * maximal runs of non-whitespace characters, in order.  The parser's
 * in-place tokenizer is compared against it.  The words are defined on
 * an index range [i, e) of a string, so that a stretch of the parser's
 * buffer can be spoken of without cutting it out.
 */
module Tokens {
  import opened CLib

  /** The end of the run of non-whitespace characters that starts at i, looking no further than e. */
  function WordEnd(s: seq<char>, i: nat, e: nat): (j: nat)
    requires i <= e <= |s|
    ensures i <= j <= e
    ensures forall k :: i <= k < j ==> !IsSpace(s[k])
    ensures j < e ==> IsSpace(s[j])
    decreases e - i
  {
    if i == e || IsSpace(s[i]) then i else WordEnd(s, i + 1, e)
  }

  /** The words of s in [i, e): its maximal runs of non-whitespace characters, in order. */
  function WordsIn(s: seq<char>, i: nat, e: nat): (r: seq<seq<char>>)
    requires i <= e <= |s|
    decreases e - i
  {
    if i == e then []
    else if IsSpace(s[i]) then WordsIn(s, i + 1, e)
    else
      var j := WordEnd(s, i, e);
      [s[i..j]] + WordsIn(s, j, e)
  }

  /** The words of a whole string. */
  function Words(t: seq<char>): (r: seq<seq<char>>) {
    WordsIn(t, 0, |t|)
  }

  /** Every word is a non-empty run of non-whitespace characters. */
  lemma {:induction false} WordsInShape(s: seq<char>, i: nat, e: nat)
    requires i <= e <= |s|
    ensures forall w :: w in WordsIn(s, i, e) ==> w != [] && forall c :: c in w ==> !IsSpace(c)
    decreases e - i
  {
    if i < e {
      if IsSpace(s[i]) {
        WordsInShape(s, i + 1, e);
      } else {
        var j := WordEnd(s, i, e);
        WordsInShape(s, j, e);
        assert WordsIn(s, i, e) == [s[i..j]] + WordsIn(s, j, e);
      }
    }
  }

  /** A run of non-whitespace characters from i, ended by whitespace or by e, ends where `WordEnd` says. */
  lemma WordEndAt(s: seq<char>, i: nat, j: nat, e: nat)
    requires i <= j <= e <= |s|
    requires forall k :: i <= k < j ==> !IsSpace(s[k])
    requires j < e ==> IsSpace(s[j])
    ensures WordEnd(s, i, e) == j
  {
  }

  /** Leading whitespace adds no word. */
  lemma {:induction false} WordsInSkip(s: seq<char>, i: nat, m: nat, e: nat)
    requires i <= m <= e <= |s|
    requires forall k :: i <= k < m ==> IsSpace(s[k])
    ensures WordsIn(s, i, e) == WordsIn(s, m, e)
    decreases m - i
  {
    if i < m {
      WordsInSkip(s, i + 1, m, e);
    }
  }

  /**
   * A range that starts with the run s[p..q], followed by whitespace up to
   * m (or by the end of the range), has that run as its first word and
   * then the words from m.
   */
  lemma WordsInSplit(s: seq<char>, p: nat, q: nat, m: nat, e: nat)
    requires p < q <= m <= e <= |s|
    requires forall k :: p <= k < q ==> !IsSpace(s[k])
    requires forall k :: q <= k < m ==> IsSpace(s[k])
    requires q < m || q == e
    ensures WordsIn(s, p, e) == [s[p..q]] + WordsIn(s, m, e)
  {
    WordEndAt(s, p, q, e);
    WordsInSkip(s, q, m, e);
  }

  /** `WordEnd` only looks at [i, e). */
  lemma WordEndFrame(s: seq<char>, t: seq<char>, i: nat, e: nat)
    requires i <= e <= |s| && e <= |t|
    requires forall k :: i <= k < e ==> s[k] == t[k]
    ensures WordEnd(s, i, e) == WordEnd(t, i, e)
  {
    WordEndAt(t, i, WordEnd(s, i, e), e);
  }

  /** The words of [i, e) only depend on the characters in [i, e). */
  lemma {:induction false} WordsInFrame(s: seq<char>, t: seq<char>, i: nat, e: nat)
    requires i <= e <= |s| && e <= |t|
    requires forall k :: i <= k < e ==> s[k] == t[k]
    ensures WordsIn(s, i, e) == WordsIn(t, i, e)
    decreases e - i
  {
    if i < e {
      if IsSpace(s[i]) {
        WordsInFrame(s, t, i + 1, e);
      } else {
        var j := WordEnd(s, i, e);
        WordEndFrame(s, t, i, e);
        assert s[i..j] == t[i..j];
        WordsInFrame(s, t, j, e);
      }
    }
  }

  /** Whitespace after e adds no word. */
  lemma {:induction false} WordsInTrailing(s: seq<char>, i: nat, e: nat, e': nat)
    requires i <= e <= e' <= |s|
    requires forall k :: e <= k < e' ==> IsSpace(s[k])
    ensures WordsIn(s, i, e') == WordsIn(s, i, e)
    decreases e - i
  {
    if i == e {
      WordsInSkip(s, e, e', e');
    } else if IsSpace(s[i]) {
      WordsInTrailing(s, i + 1, e, e');
    } else {
      var j := WordEnd(s, i, e);
      WordEndAt(s, i, j, e');
      WordsInTrailing(s, j, e, e');
    }
  }
}
