# A verified model of the command-line parser of `shell.c`

`shell.c` is a small Unix shell built from two threads. The reader thread
prompts for input and reads one line into a shared 513-byte buffer. It
decides whether the line is too long, is `exit`, is blank, or is handed
over. The runner thread parses the handed-over line in place and forks
the command. This project models the parsing core of that program in
Dafny, together with the reader's per-line decision:

- `set_null` nulls the first NUL or whitespace at or after a pointer.
- `parse_redirect` finds a redirection symbol with `strchrnul` and skips
  the whitespace after it, to where the file name starts.
- The parse section of `thread_run` does the following, in order:
  - it resets the program (arguments, file names, background flag);
  - it detects `&`;
  - it finds the `<` and `>` file names and NUL-terminates them;
  - it computes `argumentsEnd`;
  - it nulls the first blank after the `&`;
  - it tokenizes `[buff, argumentsEnd)` into `argv`, doubling `argv`'s
    capacity when needed;
  - it terminates `argv` with NULL and rejects a line that yields no
    argument.
- The reader's step for one line works as follows:
  - it clears the buffer;
  - it reads at most 513 bytes;
  - it writes `buff[512] = '\0'`;
  - it classifies the line, which updates `run` and `wait_cond` and
    decides whether the buffer is handed over.

Pointers into the buffer are indices. An `argv` entry is `Null` or
`At(index)`. The buffer is an `array<char>` whose last cell is NUL.
`argv` is an `ArgVector` object holding an `array<Ptr>` and its capacity
`argv_size`. Each in-place operation is a method, proved against a
specification function on the buffer's contents:

| in-place method | specification function |
|---|---|
| `SetNull` | `BlankFrom` |
| `ParseRedirect` | `StrChrNul` / `FileName` |
| `TokenizeArgs` | `Tokenize` |
| `ParseCommand` | `ParseLine` |
| `ReadLine` | `ReadBuffer` / `Classify` |

Lemmas then state what the source promises about those functions.

`Tokens.Words` is an independent reference definition of a line's words:
its maximal runs of non-whitespace characters. The tokenizer is compared
against it.

Files:

- `clib.dfy`: the C library pieces the code relies on. These are `isspace`
  in the C locale, `strchrnul`, `strlen`, and the string a `char *`
  denotes.
- `words.dfy`: the reference definition of words.
- `parser.dfy`: the specification functions and the in-place methods of
  the parser.
- `parser_lemmas.dfy`: properties of the whole parse.
- `reader.dfy`: the reader's handling of one line.

## Behaviour as written

The model follows the code as written. The places below are where that
behaviour is not what the code's own comments and checks lead a reader to
expect. The list is not exhaustive: each item is backed by the lemmas it
names, and other consequences of the same code may exist.

- **A line of only whitespace.** The check at shell.c:223-226 rejects a
  line that yields no argument with "Invalid input". A newline-terminated
  line of only whitespace passes that check. `argv[0]` is always the
  buffer (shell.c:194), and the loop runs whenever `argumentsEnd > 0`.
  For such a line, the loop nulls the leading whitespace, so the line is
  dispatched with one empty argument. `Reader.WhitespaceLineDispatched`
  states this. A single whitespace character read without a newline, at
  the end of input, has `argumentsEnd == 0` and is rejected
  (`ParserLemmas.ZeroArguments`).
- **Several whitespace characters between arguments.** The comments at
  shell.c:213 and shell.c:215 say that the next argument starts one
  character after the last NUL, and that the whitespace between arguments
  is skipped. The code stores `argv[argc]` (shell.c:214) before it skips
  (shell.c:216-217). After a run of several whitespace characters, only
  the first is nulled, and the next argument starts with the rest of the
  run. `ParserLemmas.LeftoverWhitespace` states this in general.
  `ParserLemmas.LeftoverWhitespaceExample` shows it on `ls  -l`, which
  yields the arguments `ls` and ` -l`. For the same reason, a line that
  starts with whitespace gets an empty `argv[0]`. On a newline-terminated
  line with no `&`, `<` or `>` that starts with a word and separates its
  words by single whitespace characters, the arguments are exactly the
  words, whatever whitespace follows the last word
  (`ParserLemmas.SingleSpacedArguments`). This is a sufficient
  condition, not a characterisation. The count
  (`ParserLemmas.TokenCount`) is proved for every newline-terminated line
  that has no `&`, `<` or `>`, whatever its spacing.
- **An `&` right after the last word.** `set_null(background)`
  (shell.c:190) starts at the `&`, which is not a blank, and so nulls the
  newline after it instead. The last round of the loop then nulls from
  the start of that word on to the same NUL (shell.c:214), so the `&`
  becomes part of the last argument. `ParserLemmas.AmpersandKept` states
  that the `&` survives the parse. `ParserLemmas.AmpersandArgumentExample`
  shows where it lands: on `sleep 5&` the arguments are `sleep` and `5&`.
- **A line read without its newline.** The `- 1` at shell.c:188 assumes
  that the line ends with a newline. A line read without one, at the end
  of input, loses its last character from the argument region. A last
  word of one character is then never stored as an argument.
  `ParserLemmas.MissingNewlineExample` shows this on `a b`, which yields
  the single argument `a`.
- **A line that is too long.** The reader reports such a line and
  continues with `wait_cond` still true (shell.c:112, 121-126). It then
  waits on the condition variable again (shell.c:105-108). The runner is
  also waiting there (shell.c:169-170), and neither thread signals, so
  the shell hangs. The handshake is not modelled (see "Left out"), but
  `Reader.ThreadData.ReadLine` states the part that leads to the hang: a
  too-long line is not handed over, and `wait_cond` stays true.

## Model

| member | source | states |
|---|---|---|
| CLib.ScanFor | shell.c:83 | `strchrnul`: the result is the first index at or after the start that holds c or NUL; no earlier cell holds either |
| CLib.BlankFrom | shell.c:67-68 | the first index at or after p that holds NUL or whitespace; every cell skipped is neither |
| Parser.SetNull | shell.c:65-72 | returns the first index at or after `str` that holds NUL or whitespace, and writes NUL there; every other cell is unchanged |
| ParserLemmas.SetNullAtOnlyBlank | shell.c:65-72 | `set_null` only ever writes over a whitespace or NUL cell |
| Parser.ParseRedirect | shell.c:81-94 | `start` is the first c or the terminating NUL, and no earlier cell holds c; when c is absent, the file name starts at `start`, which holds NUL; when c is present, the file name starts after `start`, every cell between them is whitespace, and the first cell of the name is not whitespace; the buffer is not modified |
| Parser.ArgumentsEnd | shell.c:186-188 | the result is the first of the three marker indices, less one unless `&` comes before `<`; it never exceeds the first marker. When `&` comes first, it is the earlier of `&` and `>`; otherwise it is one before the earlier of `<` and `>`, and so before `&` |
| ParserLemmas.LineEndCases | shell.c:177-188 | `argumentsEnd` on a line: the first marker when `&` precedes `<`, that marker minus one otherwise, and the index of the last character (the newline) when the line has no `&`, `<` or `>` |
| ParserLemmas.StrChrNulInLine | shell.c:177-178 | `strchrnul` lands inside the line exactly when the line holds the character, and on the terminator otherwise |
| ParserLemmas.BackgroundIffAmpersand | shell.c:177-178 | `p.background` is true exactly when the line holds `&` |
| ParserLemmas.NoMarkers | shell.c:177-190 | a line without `&`, `<`, `>` has both file names and the `&` pointer at its terminator; marking leaves the buffer unchanged, and `argumentsEnd` is the index of its last character |
| Parser.MarkSpecials | shell.c:177-190 | the buffer after marking, both file-name starts, the background flag and `argumentsEnd`, each as the specification functions define them |
| ParserLemmas.MarkedOnlyBlanks | shell.c:182-190 | marking writes NUL only over whitespace or NUL |
| ParserLemmas.AmpersandKept | shell.c:190 | `set_null(background)` leaves the `&` itself in place |
| ParserLemmas.MarkingsLast | shell.c:182-219 | the NUL written after each file name is still there when the parse ends |
| ParserLemmas.FileNamesAreRuns | shell.c:179-183 | each file name, read as a C string of the final buffer, is the run of non-whitespace characters where `parse_redirect` stopped; it is empty when the symbol is absent |
| Parser.ArgVector.constructor | shell.c:149-153 | a vector of capacity `argv_size` |
| Parser.ArgVector.Grow | shell.c:198-212 | the capacity doubles and the stored entries are kept |
| Parser.ArgVector.Reserve | shell.c:198-212 | after the check, `argc + 1 < argv_size`; the capacity doubled exactly when `argv_size <= argc + 1`; entries `0..argc` are kept |
| Parser.ArgVector.Put | shell.c:194 | `argv[k] = x`, with no other entry changed |
| Parser.ArgVector.Store | shell.c:214 | storing the next start extends the stored pointers by exactly that start |
| Parser.Capacity | shell.c:198-211 | the capacity after `argc` stores exceeds `argc`, is never below the initial capacity, and is at most twice `argc` once it has grown |
| Parser.CapacityNext | shell.c:198-211 | one more store doubles the capacity exactly when `argc + 1` would reach it |
| Parser.SkipBlanks | shell.c:216-217 | advances over whitespace while below `argumentsEnd`; it stops at `argumentsEnd` or at a non-whitespace character, and the buffer is only read |
| Parser.NextArgument | shell.c:198-217 | one round of the loop: room in `argv`; NUL at the first blank after `null_pos`; the index after it stored as `argv[argc + 1]`; `null_pos` moved past the following whitespace; the rest of the loop computes the same result from the new state |
| Parser.ArgumentLoop | shell.c:196-219 | the loop leaves the buffer and the stored pointers as `Tokenize` defines them; the capacity is the doubled capacity for the count reached, and the count stays below the capacity |
| Parser.TokenizeArgs | shell.c:193-221 | the buffer after tokenizing, `argc`, and `argv[0..argc]` (`argv[0]` is the buffer, then the stored starts, then NULL), all as `Tokenize` defines them |
| Parser.ArgvOf | shell.c:194-221 | `argv` after the loop: `argv[0]` is the buffer when anything was stored, `argv[k]` is the k-th stored start, and `argv[argc]` is NULL |
| Parser.ParseLine | shell.c:176-221 | the parse keeps the buffer terminated and its length; both file names point inside it; `argv` has `argc + 1` entries, the last NULL |
| Parser.ParseCommand | shell.c:176-221 | after resetting `argv[0]` (shell.c:157-161), the method leaves the buffer, the program fields and `argv[0..argc]` as `ParseLine` defines them; the capacity only grows, and `argc < argv_size` |
| ParserLemmas.TokenizeKeepsStarts | shell.c:196-219 | the loop only appends to the stored starts, and appends at least one exactly when it runs |
| ParserLemmas.TokenizeFrame | shell.c:196-219 | the loop never changes the cells before `null_pos` |
| ParserLemmas.TokenizeOnlyBlanks | shell.c:196-219 | the loop writes NUL only over whitespace or NUL |
| ParserLemmas.ParseOnlyBlanksNulled | shell.c:176-221 | the whole parse writes NUL only over whitespace or NUL, so every other character survives |
| ParserLemmas.TokenizeStartsFollowNul | shell.c:214 | every start the loop stores is one past a cell it has set to NUL |
| ParserLemmas.ArgumentsFollowNul | shell.c:193-221 | every argument after `argv[0]` starts one past a NUL the parse wrote |
| ParserLemmas.ZeroArguments | shell.c:196-227 | `argc == 0` exactly when `argumentsEnd <= 0`, and a line is forked exactly when `argumentsEnd > 0` |
| ParserLemmas.LeadingMarkerRejected | shell.c:186-227 | a line starting with `&`, `<` or `>` has `argumentsEnd <= 0`, no argument, and is rejected as invalid input |
| ParserLemmas.LeadingSpaceEmptyArgument | shell.c:194-214 | a line starting with whitespace, with a non-empty argument region, gets an empty first argument at the start of the buffer |
| ParserLemmas.TokenizeWords | shell.c:196-219 | on a NUL-free stretch that starts with a word and ends at whitespace, the loop stores one start per word |
| ParserLemmas.WordsRound | shell.c:214-217 | one round on the words: the stretch is the word the round nulls, followed by the words from the next `null_pos` |
| ParserLemmas.LeftoverWhitespace | shell.c:213-217 | after an argument followed by whitespace and then a word, the next stored start is one past the nulled first whitespace character; the argument read there is the rest of the whitespace followed by the word |
| ParserLemmas.LeftoverWhitespaceExample | shell.c:176-221 | `ls  -l` (two spaces) parses into `argc == 2`, `argv == [buff, buff + 3, NULL]`, with the arguments `ls` and ` -l` |
| ParserLemmas.AmpersandArgumentExample | shell.c:177-221 | `sleep 5&` is a background command that parses into `argc == 2`, `argv == [buff, buff + 6, NULL]`, with the arguments `sleep` and `5&`: the `&` lands inside the last argument |
| ParserLemmas.MissingNewlineExample | shell.c:186-221 | `a b` read without a newline parses into `argc == 1`, `argv == [buff, NULL]`, with the single argument `a`: the last word is dropped |
| ParserLemmas.LeadingSpaceCount | shell.c:194-219 | a stretch starting with whitespace gets one argument more than it has words |
| ParserLemmas.TokenCount | shell.c:193-221 | on a line with no `&`, `<`, `>`, `argc` is the number of words of the line, plus one when it starts with whitespace; `argv[argc]` is NULL |
| ParserLemmas.TokenizeSingleSpaced | shell.c:196-219 | on a single-spaced stretch, the start and every stored start but the last read, as C strings of the final buffer, exactly the successive words |
| ParserLemmas.SingleSpacedArguments | shell.c:193-221 | on a line with no markers, starting with a word, whose words up to the end of the last one are separated by single whitespace characters (any whitespace may follow before the newline), `argc` is the number of words and `argv[k]` reads exactly the k-th word, NUL-terminated in place |
| ParserLemmas.TokenizeTrailing | shell.c:196-219 | whitespace between the end of the last word and `argumentsEnd` adds no round: the loop leaves the same buffer and starts whether it stops at the word's end or at `argumentsEnd` |
| Reader.ReadBuffer | shell.c:116-119 | the buffer has 513 cells; `buff[512]` is NUL; below that it holds the bytes read, and NUL after them |
| Reader.ClassifyRead | shell.c:121-134 | the line is too long exactly when 513 bytes were read; it is `exit` exactly when the bytes read as a C string are `exit\n`; it is blank exactly when the first byte read is a newline |
| Reader.ThreadData.constructor | shell.c:309 | `run` starts true, with a zeroed 513-byte buffer |
| Reader.ThreadData.ReadLine | shell.c:112-139 | the new buffer is as `ReadBuffer` defines it; `run` is cleared on `exit` and unchanged otherwise; the buffer is handed over for `exit` and for an ordinary line, not for a too-long or blank one; `wait_cond` is false only after a blank line |
| Reader.EmptyReadNotForked | shell.c:116-227 | a failed or empty read leaves an all-NUL buffer; the reader hands it over, and the parse finds no argument, so nothing is forked |
| Reader.WhitespaceLineDispatched | shell.c:194-227 | a line of only whitespace before its newline is parsed into a single empty argument and is dispatched |

## Left out

- The thread handshake is left out: the mutex and condition variable
  between the two threads (shell.c:105-110, 137-139, 164-174), and the
  unsynchronised `run` flag. This is concurrency. `ReadLine` returns
  whether it signals; it does not wait.
- The process path is left out (shell.c:229-296): `fork`, `waitpid`, the
  `open`/`dup2` redirection and `execvp`. These are operating-system
  calls. The model ends at the decision whether a line is forked
  (`Parser.Dispatched`).
- The signal handlers (shell.c:34-59) and `main` (shell.c:304-334) are
  left out, except that `main` sets `run`. They do operating-system work
  and setup.
- Terminal I/O is left out. `printf`, `fflush` and the diagnostics are
  not modelled. `read` is a parameter: the count it returned and the
  bytes it delivered.
- Parser.ArgVector.Grow: models the intended doubling of `argv`'s
  capacity. It does not model the `realloc` failure path, which depends
  on the allocator. It does not model that `realloc(p.argv, argv_size * 2)`
  passes a byte count rather than an element count (shell.c:200-208).
- Reader.ThreadData.ReadLine: does not model the `getchar` loop that
  discards the rest of a too-long line (shell.c:124). That loop reads the
  terminal.
- `strcmp` against `"exit\n"` is the comparison of the buffer's C string
  with that literal. It is part of the specification (`Reader.Classify`),
  not a loop of its own.
