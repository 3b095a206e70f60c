/**
 * The pieces of the C library the shell's parser relies on, over a
 * character buffer indexed from 0: the NUL terminator, `isspace` in the
 * C locale, `strchrnul`, and the NUL-terminated string that starts at a
 * given index.  A buffer is "terminated" when its last cell holds NUL,
 * which is what the reader guarantees by writing `buff[512] = '\0'`.
 */
module CLib {

  const NUL: char := '\0'

  /** `isspace` in the C locale: space, \t, \n, \v, \f and \r. */
  predicate IsSpace(c: char) {
    c == ' ' || c == '\t' || c == '\n' || c == '\U{000B}' || c == '\U{000C}' || c == '\r'
  }

  /** A buffer whose last cell is NUL, so that every scan stops inside it. */
  predicate Terminated(s: seq<char>) {
    |s| > 0 && s[|s| - 1] == NUL
  }

  /** `strchrnul(s + i, c)`: the first index at or after i holding c or NUL. */
  function ScanFor(s: seq<char>, c: char, i: nat): (r: nat)
    requires Terminated(s) && i < |s|
    ensures i <= r < |s|
    ensures s[r] == c || s[r] == NUL
    ensures forall k :: i <= k < r ==> s[k] != c && s[k] != NUL
    decreases |s| - i
  {
    if s[i] == c || s[i] == NUL then i else ScanFor(s, c, i + 1)
  }

  /** `strchrnul(s, c)` on the whole buffer. */
  function StrChrNul(s: seq<char>, c: char): (r: nat)
    requires Terminated(s)
  {
    ScanFor(s, c, 0)
  }

  /** `strlen(s)`: the index of the first NUL. */
  function Strlen(s: seq<char>): (r: nat)
    requires Terminated(s)
  {
    ScanFor(s, NUL, 0)
  }

  /** The NUL-terminated string that a `char *` pointing at index i denotes. */
  function CString(s: seq<char>, i: nat): (r: seq<char>)
    requires Terminated(s) && i < |s|
    ensures NUL !in r
    ensures i + |r| < |s| && s[i + |r|] == NUL
  {
    s[i..ScanFor(s, NUL, i)]
  }

  /** The first index at or after p that holds NUL or whitespace. */
  function BlankFrom(s: seq<char>, p: nat): (r: nat)
    requires Terminated(s) && p < |s|
    ensures p <= r < |s|
    ensures s[r] == NUL || IsSpace(s[r])
    ensures forall k :: p <= k < r ==> s[k] != NUL && !IsSpace(s[k])
    decreases |s| - p
  {
    if s[p] == NUL || IsSpace(s[p]) then p else BlankFrom(s, p + 1)
  }

  /**
   * The first index at or after p that is at least `limit` or holds a
   * non-whitespace character: the result of advancing a pointer over
   * whitespace while it stays below `limit`.
   */
  function SkipSpace(s: seq<char>, p: nat, limit: int): (r: nat)
    requires p <= |s| && limit <= |s|
    ensures p <= r
    ensures r <= p || r <= limit
    ensures r < limit ==> !IsSpace(s[r])
    ensures forall k :: p <= k < r ==> IsSpace(s[k])
    decreases limit - p
  {
    if p < limit && IsSpace(s[p]) then SkipSpace(s, p + 1, limit) else p
  }

  /** Advancing from p over whitespace stops at r when [p, r) is whitespace and r is the limit or not whitespace. */
  lemma SkipSpaceAt(s: seq<char>, p: nat, limit: int, r: nat)
    requires p <= r <= |s| && limit <= |s| && (r == p || r <= limit)
    requires forall k :: p <= k < r ==> IsSpace(s[k])
    requires r < limit ==> !IsSpace(s[r])
    requires r >= limit || r < |s|
    ensures SkipSpace(s, p, limit) == r
  {
  }

  /** A string read from index i: when s[i..i+m] has no NUL and s[i+m] is NUL, it is s[i..i+m]. */
  lemma CStringAt(s: seq<char>, i: nat, m: nat)
    requires Terminated(s) && i + m < |s|
    requires forall k :: i <= k < i + m ==> s[k] != NUL
    requires s[i + m] == NUL
    ensures CString(s, i) == s[i..i + m]
  {
  }

  /** The string at i is t, free of NUL, exactly when t sits at i and a NUL follows it. */
  lemma CStringIs(s: seq<char>, i: nat, t: seq<char>)
    requires Terminated(s) && i < |s| && NUL !in t
    ensures CString(s, i) == t <==> i + |t| < |s| && s[i..i + |t|] == t && s[i + |t|] == NUL
  {
    if i + |t| < |s| && s[i..i + |t|] == t && s[i + |t|] == NUL {
      assert forall k :: i <= k < i + |t| ==> s[k] == t[k - i];
      CStringAt(s, i, |t|);
    }
  }
}
