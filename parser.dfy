/**
 * The shell's in-place command-line parser (shell.c): `set_null`,
 * `parse_redirect` and the parse section of `thread_run`.
 *
 * Pointers into the line buffer are indices; an entry of the argument
 * vector is either NULL or an index into the buffer.  Each operation is
 * specified by a function on the buffer's contents, and each method that
 * works on the buffer in place is proved against that function.
 */
module Parser {
  import opened CLib

  /** An entry of `argv`: NULL, or a `char *` pointing at an index of the line buffer. */
  datatype Ptr = Null | At(offset: nat)

  /** The fields of `program_t` the parser fills in, pointers as indices. */
  datatype Program = Program(inputFile: nat, outputFile: nat, background: bool, argc: nat)

  /** What parsing leaves behind: the rewritten buffer, the program and `argv[0..argc]`. */
  datatype Parsed = Parsed(buffer: seq<char>, program: Program, argv: seq<Ptr>)

  // ---------------------------------------------------------------------
  // Specification functions
  // ---------------------------------------------------------------------

  /** The buffer after `set_null(s + i)`. */
  function SetNullAt(s: seq<char>, i: nat): (r: seq<char>)
    requires Terminated(s) && i < |s|
    ensures Terminated(r) && |r| == |s|
  {
    s[BlankFrom(s, i) := NUL]
  }

  /** The index `parse_redirect(s, c, &start)` returns: the start of the file name after c. */
  function FileName(s: seq<char>, c: char): (r: nat)
    requires Terminated(s)
    ensures r < |s|
  {
    var start := StrChrNul(s, c);
    if s[start] == NUL then start
    else
      SkipSpace(s, start + 1, |s|)
  }

  /**
   * The conditional expression of shell.c:186-188.  By the precedence of
   * `?:` the trailing `- 1` belongs to the else branch only: the result is
   * the first of the three marker positions, one less when no `&` comes
   * before the `<`.
   */
  function ArgumentsEnd(amp: int, inStart: int, outStart: int): (r: int)
    ensures var first := Min(amp, Min(inStart, outStart));
      r == (if amp < inStart then first else first - 1) && r <= first
    ensures amp < inStart ==> r == Min(amp, outStart) && r <= inStart
    ensures inStart <= amp ==> r == Min(inStart, outStart) - 1 && r < amp
  {
    if amp < inStart then (if amp < outStart then amp else outStart)
    else (if inStart < outStart then inStart else outStart) - 1
  }

  function Min(a: int, b: int): (r: int) {
    if a <= b then a else b
  }

  /** `argumentsEnd` for a line: the three markers are found with `strchrnul`. */
  function LineEnd(s: seq<char>): (r: int)
    requires Terminated(s)
  {
    ArgumentsEnd(StrChrNul(s, '&'), StrChrNul(s, '<'), StrChrNul(s, '>'))
  }

  /**
   * The tokenizing loop of shell.c:196-219, from `null_pos == p`, with the
   * argument starts stored so far.  Each round nulls the first blank at or
   * after p, stores the index after it, and skips whitespace below `end`.
   */
  function Tokenize(s: seq<char>, p: nat, end: int, starts: seq<nat>): (r: (seq<char>, seq<nat>))
    requires Terminated(s) && p <= |s| && end < |s|
    ensures Terminated(r.0) && |r.0| == |s|
    decreases end - p
  {
    if p >= end then (s, starts)
    else
      var q := BlankFrom(s, p);
      var s' := s[q := NUL];
      var next := SkipSpace(s', q + 1, end);
      Tokenize(s', next, end, starts + [q + 1])
  }

  /** The pointers the loop stores: `argv[0]` is the buffer itself, `argv[k]` the k-th stored start. */
  function Stored(starts: seq<nat>): (r: seq<Ptr>)
    ensures |r| == |starts| + 1 && r[0] == At(0)
    ensures forall k :: 0 <= k < |starts| ==> r[k + 1] == At(starts[k])
  {
    [At(0)] + seq(|starts|, k requires 0 <= k < |starts| => At(starts[k]))
  }

  /** One round of the tokenizing loop, unfolded. */
  lemma TokenizeStep(s: seq<char>, p: nat, end: int, starts: seq<nat>, q: nat, s': seq<char>, next: nat)
    requires Terminated(s) && p < end < |s|
    requires q == BlankFrom(s, p) && s' == s[q := NUL]
    requires next == SkipSpace(s', q + 1, end)
    ensures Terminated(s') && next <= |s'|
    ensures Tokenize(s, p, end, starts) == Tokenize(s', next, end, starts + [q + 1])
  {
  }

  lemma StoredNext(starts: seq<nat>, x: nat)
    ensures Stored(starts + [x]) == Stored(starts) + [At(x)]
  {
  }

  /**
   * `argv[0..argc]` after the loop: `argv[argc] = NULL` overwrites the last
   * stored start, or `argv[0]` when nothing was stored.
   */
  function ArgvOf(starts: seq<nat>): (r: seq<Ptr>)
    ensures |r| == |starts| + 1 && r[|starts|] == Null
    ensures |starts| > 0 ==> r[0] == At(0)
    ensures forall k :: 0 < k < |starts| ==> r[k] == At(starts[k - 1])
  {
    Stored(starts)[|starts| := Null]
  }

  /** The whole parse section of `thread_run` (shell.c:176-221) on a line buffer. */
  function ParseLine(s: seq<char>): (r: Parsed)
    requires Terminated(s)
    ensures Terminated(r.buffer) && |r.buffer| == |s|
    ensures r.program.inputFile < |s| && r.program.outputFile < |s|
    ensures |r.argv| == r.program.argc + 1 && r.argv[r.program.argc] == Null
  {
    var amp := StrChrNul(s, '&');
    var t := Tokenize(Marked(s), 0, LineEnd(s), []);
    Parsed(t.0, Program(FileName(s, '<'), FileName(s, '>'), s[amp] != NUL, |t.1|), ArgvOf(t.1))
  }

  /**
   * The buffer after shell.c:182-190: the first blank after each file
   * name, then the first blank at or after the `&` marker, set to NUL.
   */
  function Marked(s: seq<char>): (r: seq<char>)
    requires Terminated(s)
    ensures Terminated(r) && |r| == |s|
  {
    var s1 := SetNullAt(s, FileName(s, '<'));
    var s2 := SetNullAt(s1, FileName(s, '>'));
    SetNullAt(s2, StrChrNul(s, '&'))
  }

  /** A parsed line is forked only when it has at least one argument (shell.c:223-227). */
  predicate Dispatched(p: Program) {
    p.argc >= 1
  }

  /**
   * The capacity of `argv` once `argc` arguments are stored, starting from
   * capacity `size`: it doubles whenever the next store would not leave
   * room for the terminating NULL.
   */
  function Capacity(size: nat, argc: nat): (r: nat)
    requires size >= 1
    ensures argc < r && size <= r
    ensures r == size || r <= 2 * argc
    decreases argc + 1 - size
  {
    if argc < size then size else Capacity(2 * size, argc)
  }

  /** Storing one more argument doubles the capacity exactly when it is full. */
  lemma {:induction false} CapacityNext(size: nat, argc: nat)
    requires size >= 1
    ensures Capacity(size, argc + 1) ==
      if argc + 1 < Capacity(size, argc) then Capacity(size, argc) else 2 * Capacity(size, argc)
    decreases argc + 1 - size
  {
    if argc >= size {
      CapacityNext(2 * size, argc);
    }
  }

  // ---------------------------------------------------------------------
  // The in-place operations
  // ---------------------------------------------------------------------

  /** `set_null` (shell.c:65-72): null the first NUL or whitespace at or after `str`. */
  method SetNull(buff: array<char>, str: nat) returns (pos: nat)
    requires Terminated(buff[..]) && str < buff.Length
    modifies buff
    ensures pos == BlankFrom(old(buff[..]), str)
    ensures buff[..] == old(buff[..])[pos := NUL]
  {
    pos := str;
    while buff[pos] != NUL && !IsSpace(buff[pos])
      invariant str <= pos < buff.Length
      invariant BlankFrom(buff[..], pos) == BlankFrom(buff[..], str)
      decreases buff.Length - pos
    {
      pos := pos + 1;
    }
    buff[pos] := NUL;
  }

  /**
   * `parse_redirect` (shell.c:81-94): `start` is where the first c (or the
   * terminator) is, `file` is where the file name after it begins.
   * The buffer is only read.
   */
  method ParseRedirect(buff: array<char>, c: char) returns (file: nat, start: nat)
    requires Terminated(buff[..])
    ensures start == StrChrNul(buff[..], c) && file == FileName(buff[..], c)
    ensures start < buff.Length && (buff[start] == c || buff[start] == NUL)
    ensures forall k :: 0 <= k < start ==> buff[k] != c && buff[k] != NUL
    ensures buff[start] == NUL ==> file == start
    ensures buff[start] != NUL ==>
      start < file < buff.Length &&
      (forall k :: start < k < file ==> IsSpace(buff[k])) &&
      !IsSpace(buff[file])
  {
    start := StrChrNul(buff[..], c);
    var symbol := start;
    if buff[symbol] == NUL {
      file := symbol;
      return;
    }
    symbol := symbol + 1;
    while buff[symbol] != NUL && IsSpace(buff[symbol])
      invariant start < symbol < buff.Length
      invariant forall k :: start < k < symbol ==> IsSpace(buff[k])
      invariant SkipSpace(buff[..], symbol, buff.Length) == SkipSpace(buff[..], start + 1, buff.Length)
      decreases buff.Length - symbol
    {
      symbol := symbol + 1;
    }
    file := symbol;
  }

  /** The argument vector `p.argv` with its capacity `argv_size` (shell.c:149, 153, 198-212). */
  class ArgVector {
    var slots: array<Ptr>
    var size: nat

    ghost predicate Valid()
      reads this
    {
      slots.Length == size && size >= 1
    }

    /** `malloc(sizeof(char*) * argv_size)` with `argv_size` = n. */
    constructor (n: nat)
      requires n >= 1
      ensures Valid() && size == n && fresh(slots)
    {
      slots := new Ptr[n](_ => Null);
      size := n;
    }

    /** Doubling the capacity, keeping the stored entries. */
    method Grow()
      requires Valid()
      modifies this
      ensures Valid() && size == 2 * old(size) && fresh(slots)
      ensures slots[..old(size)] == old(slots[..])
    {
      var bigger := new Ptr[2 * size](_ => Null);
      for k := 0 to size
        modifies bigger
        invariant bigger[..k] == slots[..k]
      {
        bigger[k] := slots[k];
      }
      assert bigger[..size] == slots[..size];
      slots := bigger;
      size := 2 * size;
    }

    /**
     * shell.c:198-212: before `argv[++argc]` is stored, double the
     * capacity when `argc + 1` would not be below it.
     */
    method Reserve(argc: nat)
      requires Valid() && argc < size
      modifies this
      ensures Valid() && argc + 1 < size
      ensures slots == old(slots) || fresh(slots)
      ensures size == if argc + 1 < old(size) then old(size) else 2 * old(size)
      ensures slots[..argc + 1] == old(slots[..argc + 1])
    {
      if size <= argc + 1 {
        Grow();
      }
    }

    /** `argv[k] = x`. */
    method Put(k: nat, x: Ptr)
      requires Valid() && k < size
      modifies slots
      ensures Valid() && slots[..] == old(slots[..])[k := x]
      ensures slots[..k + 1] == old(slots[..k]) + [x]
    {
      slots[k] := x;
      assert slots[..k + 1] == old(slots[..k]) + [x];
    }

    /** `argv[k] = x` for the start after `starts`, as the loop stores it. */
    method Store(k: nat, x: nat, ghost starts: seq<nat>)
      requires Valid() && k == |starts| + 1 && k < size && slots[..k] == Stored(starts)
      modifies slots
      ensures Valid() && slots[..] == old(slots[..])[k := At(x)]
      ensures slots[..k + 1] == Stored(starts + [x])
    {
      Put(k, At(x));
      StoredNext(starts, x);
    }
  }

  /**
   * shell.c:177-190: find the three markers, null the end of both file
   * names, compute `argumentsEnd` and null the first blank after `&`.
   */
  method MarkSpecials(buff: array<char>) returns (inFile: nat, outFile: nat, background: bool, end: int)
    requires Terminated(buff[..])
    modifies buff
    ensures buff[..] == Marked(old(buff[..]))
    ensures inFile == FileName(old(buff[..]), '<') && outFile == FileName(old(buff[..]), '>')
    ensures background == (old(buff[..])[StrChrNul(old(buff[..]), '&')] != NUL)
    ensures end == LineEnd(old(buff[..]))
  {
    var amp := StrChrNul(buff[..], '&');
    background := buff[amp] != NUL;
    var inStart, outStart;
    inFile, inStart := ParseRedirect(buff, '<');
    outFile, outStart := ParseRedirect(buff, '>');
    ghost var s := buff[..];
    var _ := SetNull(buff, inFile);
    ghost var s1 := buff[..];
    assert s1 == SetNullAt(s, inFile);
    var _ := SetNull(buff, outFile);
    ghost var s2 := buff[..];
    assert s2 == SetNullAt(s1, outFile);
    end := ArgumentsEnd(amp, inStart, outStart);
    var _ := SetNull(buff, amp);
    assert buff[..] == SetNullAt(s2, amp);
  }

  /**
   * shell.c:216-217: advance over whitespace while below `end`.  The
   * buffer is only read.
   */
  method SkipBlanks(buff: array<char>, from: nat, end: int) returns (p: nat)
    requires from <= buff.Length && end < buff.Length
    ensures p == SkipSpace(buff[..], from, end)
    ensures from <= p && (p < end ==> !IsSpace(buff[p]))
    ensures forall k :: from <= k < p ==> IsSpace(buff[k])
  {
    p := from;
    while p < end && IsSpace(buff[p])
      invariant from <= p <= buff.Length
      invariant SkipSpace(buff[..], p, end) == SkipSpace(buff[..], from, end)
    {
      p := p + 1;
    }
  }

  /**
   * One round of the loop body, shell.c:198-217: make room in `argv`,
   * null the end of the current argument, store the index after it as
   * `argv[argc + 1]`, and skip the whitespace that follows.
   */
  method NextArgument(buff: array<char>, argv: ArgVector, nullPos: nat, argc: nat, end: int, ghost starts: seq<nat>)
    returns (next: nat, q: nat)
    requires Terminated(buff[..]) && nullPos < end < buff.Length
    requires argv.Valid() && argc < argv.size
    requires argc == |starts| && argv.slots[..argc + 1] == Stored(starts)
    modifies buff, argv, argv.slots
    ensures q == BlankFrom(old(buff[..]), nullPos) && buff[..] == old(buff[..])[q := NUL]
    ensures next == SkipSpace(buff[..], q + 1, end)
    ensures Terminated(buff[..]) && next <= buff.Length
    ensures Tokenize(buff[..], next, end, starts + [q + 1]) == Tokenize(old(buff[..]), nullPos, end, starts)
    ensures argv.Valid() && (argv.slots == old(argv.slots) || fresh(argv.slots))
    ensures argv.size == if argc + 1 < old(argv.size) then old(argv.size) else 2 * old(argv.size)
    ensures argv.slots[..argc + 2] == Stored(starts + [q + 1])
  {
    ghost var s := buff[..];
    argv.Reserve(argc);
    // here argc + 1 < argv.size, so the store below is in bounds
    q := SetNull(buff, nullPos);
    next := q + 1;
    argv.Store(argc + 1, next, starts);
    next := SkipBlanks(buff, next, end);
    TokenizeStep(s, nullPos, end, starts, q, buff[..], next);
  }

  /**
   * shell.c:193-221: tokenize `[buff, argumentsEnd)` into `argv`, doubling
   * its capacity when the next store would leave no room for the NULL.
   */
  method TokenizeArgs(buff: array<char>, argv: ArgVector, end: int) returns (argc: nat)
    requires Terminated(buff[..]) && end < buff.Length && argv.Valid()
    modifies buff, argv, argv.slots
    ensures argv.Valid() && (argv.slots == old(argv.slots) || fresh(argv.slots))
    ensures argv.size == Capacity(old(argv.size), argc) && argc < argv.size
    ensures buff[..] == Tokenize(old(buff[..]), 0, end, []).0
    ensures argc == |Tokenize(old(buff[..]), 0, end, []).1|
    ensures argv.slots[..argc + 1] == ArgvOf(Tokenize(old(buff[..]), 0, end, []).1)
  {
    argv.Put(0, At(0));
    assert argv.slots[..1] == Stored([]);
    argc := ArgumentLoop(buff, argv, end);
    ghost var starts := Tokenize(old(buff[..]), 0, end, []).1;
    argv.Put(argc, Null);
    assert argv.slots[..argc + 1] == ArgvOf(starts);
  }

  /**
   * The loop of shell.c:196-219, entered with `argv[0]` stored and
   * `null_pos` at the start of the buffer.
   */
  method ArgumentLoop(buff: array<char>, argv: ArgVector, end: int) returns (argc: nat)
    requires Terminated(buff[..]) && end < buff.Length && argv.Valid()
    requires argv.slots[..1] == Stored([])
    modifies buff, argv, argv.slots
    ensures argv.Valid() && (argv.slots == old(argv.slots) || fresh(argv.slots))
    ensures argv.size == Capacity(old(argv.size), argc) && argc < argv.size
    ensures buff[..] == Tokenize(old(buff[..]), 0, end, []).0
    ensures argc == |Tokenize(old(buff[..]), 0, end, []).1|
    ensures argv.slots[..argc + 1] == Stored(Tokenize(old(buff[..]), 0, end, []).1)
  {
    ghost var s := buff[..];
    ghost var slots0 := argv.slots;
    ghost var size0 := argv.size;
    argc := 0;
    var nullPos: nat := 0;
    ghost var starts: seq<nat> := [];
    ghost var cur := s;
    ghost var result := Tokenize(s, 0, end, []);
    while nullPos < end
      invariant nullPos <= buff.Length == |s|
      invariant buff[..] == cur && Terminated(cur)
      invariant Tokenize(cur, nullPos, end, starts) == result
      invariant argv.Valid()
      invariant argv.slots == slots0 || fresh(argv.slots)
      invariant argc == |starts| && argc < argv.size && argv.size == Capacity(size0, argc)
      invariant argv.slots[..argc + 1] == Stored(starts)
    {
      var q;
      nullPos, q := NextArgument(buff, argv, nullPos, argc, end, starts);
      cur := buff[..];
      CapacityNext(size0, argc);
      argc := argc + 1;
      starts := starts + [q + 1];
    }
  }

  /**
   * One parse of the line buffer by `thread_run`: the reset of
   * shell.c:157-161 and the parse of shell.c:176-221, in place.
   * `argv` keeps its capacity from earlier lines and only grows.
   */
  method ParseCommand(buff: array<char>, argv: ArgVector) returns (p: Program)
    requires Terminated(buff[..]) && argv.Valid()
    modifies buff, argv, argv.slots
    ensures argv.Valid() && (argv.slots == old(argv.slots) || fresh(argv.slots))
    ensures argv.size == Capacity(old(argv.size), p.argc) && p.argc < argv.size
    ensures buff[..] == ParseLine(old(buff[..])).buffer
    ensures p == ParseLine(old(buff[..])).program
    ensures argv.slots[..p.argc + 1] == ParseLine(old(buff[..])).argv
  {
    ghost var s := buff[..];
    argv.Put(0, Null);
    var inFile, outFile, background, end := MarkSpecials(buff);
    ghost var t := Tokenize(buff[..], 0, end, []);
    var argc := TokenizeArgs(buff, argv, end);
    p := Program(inFile, outFile, background, argc);
    assert ParseLine(s) == Parsed(t.0, p, ArgvOf(t.1));
  }
}
