# majsdown directive scanner, modelled in Dafny

majsdown turns Markdown with embedded JavaScript into plain Markdown. The
converter walks the source once, left to right, with a cursor `curr_idx`.
It copies ordinary bytes to the caller's output buffer and recognises two
directives:

- `@@$ … \n` is an inline statement. The text up to the next newline is
  executed for its effect on the interpreter. Its output is discarded, and
  the newline is consumed.
- `@@{ … }` is an inline expression. The text up to the first `}` is
  wrapped as `majsdown_set_output(…);` and executed. What the script passes
  to `majsdown_set_output` is appended to the output. Braces are not
  balanced.

Each script is built in a per-thread scratch string (`get_tl_buffer()`) and
handed to a JavaScript interpreter. A new interpreter is created for every
conversion, and its state carries over from one directive to the next. The
conversion fails in three cases:

- the disambiguator after `@@` is the last byte of the source;
- a statement has no newline after it;
- an expression has no `}` after it.

The model follows `src/majsdown/converter.cpp`. The header
`src/majsdown/converter.hpp` and most of `test/converter.t.cpp` describe a
later revision that the `.cpp` does not implement. That revision has a
`config` struct, `\@@` escapes, block statements, fence decorators, brace
balancing, statement batching and line diagnostics. Where the two disagree,
this model follows the code.

## Structure

- `buffers.dfy`, module `Buffers`: class `StringBuffer`. It stands for
  `std::string`, with the three operations the converter uses: append one
  character, append a string, and clear.
- `engine.dfy`, module `Engine`: class `Interpreter<S>`, the JavaScript
  interpreter as an abstract collaborator.
  - Its state is an opaque value of type `S`.
  - A script's execution is a function `run(state, script) == (state', appended)`.
  - `Interpret` appends `appended` to the output buffer. `InterpretDiscard` drops it.
- `cursor.dfy`, module `Cursors`: class `Cursor`. It holds the immutable
  source and the index `curr`. It also has the lambdas of the loop:
  - `is_done`, `step_fwd`, `get_curr_char` and `peek`;
  - `find_next`, a linear search specified by the pure `Find`;
  - `copy_range_to_tl_buffer`.
- `directives.dfy`, module `Directives`: a pure description of one
  conversion, in three layers.
  - `Lex(src, i)` splits the source into literal, statement and expression
    segments, plus the failure that stopped the scan, if any. It depends on
    the source alone.
  - `Render(segs, init, run)` threads the engine state through the segments
    and yields the text they append.
  - `LastScript` is what the scratch buffer holds afterwards.
- `converter.dfy`, module `Converter`:
  - `ConverterImpl.Convert` is the `while (!is_done())` loop. It is proved to
    append exactly `Render(Lex(source, 0).segments, …).text`, to return true
    exactly when `Lex` reports no failure, and to leave `LastScript(…)` in the
    scratch buffer.
  - The `$` and `{` branches are the methods `InlineStatement` and
    `InlineExpression`.
  - `RunDirective` holds the branch on the disambiguator. Its final
    "Fatal conversion error" exit is shown unreachable by an assertion.
  - `Converter.Convert` is the forwarding wrapper.
- `properties.dfy`, module `Properties`: lemmas about `Lex` and `Render`,
  and the loop invariant `Progress` with one lemma per kind of iteration.
- `scenarios.dfy`, module `Scenarios`: whole conversions of small sources.
  They hold for any engine, and they follow the tests that agree with the
  code.

A Dafny `char` stands for one byte of the C++ `std::string`, so indices
are byte offsets. The scanner compares bytes only with the ASCII characters
`@`, `$`, `{`, `}` and newline, so nothing depends on an encoding.

The engine, the thread-local scratch string and the fresh interpreter's
initial state are parameters of `Convert`:
- `scratch` is the buffer that `get_tl_buffer()` returns on the calling thread;
- `init` is the state `js_interpreter`'s constructor produces;
- `run` is what `js_dostring` does.

## Model

| member | source | states |
|---|---|---|
| Buffers.StringBuffer.AppendChar | src/majsdown/converter.cpp:87 | `append(1, c)` adds exactly `c` at the end of the text |
| Buffers.StringBuffer.Append | src/majsdown/converter.cpp:174 | `append(s)` adds exactly `s` at the end of the text |
| Buffers.StringBuffer.Clear | src/majsdown/converter.cpp:147 | `clear()` empties the scratch buffer |
| Engine.Interpreter.constructor | src/majsdown/converter.cpp:32 | the interpreter created for a conversion starts in the engine's initial state |
| Engine.Interpreter.Interpret | src/majsdown/js_interpreter.cpp:118-125 | the script moves the engine to its next state, and the text it outputs is appended to the buffer passed in |
| Engine.Interpreter.InterpretDiscard | src/majsdown/js_interpreter.cpp:127-132 | the script moves the engine to its next state, and no buffer changes |
| Cursors.Find | src/majsdown/converter.cpp:54-69 | returns the least index at or after `start` that holds `c`, or nothing exactly when no such index exists |
| Cursors.Cursor.IsDone | src/majsdown/converter.cpp:36-37 | done exactly when no byte is left under the cursor (`Peek(0)` is empty) |
| Cursors.Cursor.StepFwd | src/majsdown/converter.cpp:39 | the cursor advances by exactly one |
| Cursors.Cursor.CurrChar | src/majsdown/converter.cpp:41 | the byte under the cursor is the one `Peek(0)` yields |
| Cursors.Cursor.Peek | src/majsdown/converter.cpp:43-52 | empty exactly when `curr + n >= |source|`, otherwise the byte `source[curr + n]` |
| Cursors.Cursor.FindNext | src/majsdown/converter.cpp:54-69 | the loop returns the first index at or after `start` holding `c`, or nothing when there is none; it agrees with `Find` |
| Cursors.Cursor.CopyRangeTo | src/majsdown/converter.cpp:71-79 | the buffer gains exactly `source[start..end]`, or nothing when the range is empty |
| Converter.ConverterImpl.Convert | src/majsdown/converter.cpp:29-190 | returns true exactly when the scan reports no unterminated directive; the output keeps its prior contents as a prefix and gains the rendering of the scanned segments, which is already appended when the scan stops on a failure; the scratch buffer holds the last script built |
| Converter.ConverterImpl.Inspect | src/majsdown/converter.cpp:83-119 | the three checks copy the current byte exactly when no `@@$` or `@@{` starts there, and otherwise report the disambiguator |
| Converter.ConverterImpl.RunDirective | src/majsdown/converter.cpp:132-186 | the branch on the disambiguator runs the directive it announces; the final "Fatal conversion error" exit is unreachable |
| Converter.ConverterImpl.InlineStatement | src/majsdown/converter.cpp:132-155 | with `j` the first newline at or after `curr + 3`: the script is `source[curr+3..j]`; its output is dropped; the cursor resumes at `j + 1`; with no newline, it fails and changes nothing |
| Converter.ConverterImpl.InlineExpression | src/majsdown/converter.cpp:157-183 | with `j` the first `}` at or after `curr + 3`: the script is `majsdown_set_output(` + `source[curr+3..j]` + `);`; its output is appended; the cursor resumes at `j + 1`; with no `}`, it fails and changes nothing |
| Converter.Converter.Convert | src/majsdown/converter.cpp:198-202 | the public call has the same meaning as the implementation's |
| Properties.ProgressStart | src/majsdown/converter.cpp:32-34 | before the loop nothing is scanned, and output, engine and scratch are as given |
| Properties.ProgressLiteral | src/majsdown/converter.cpp:83-117 | copying a byte that starts no directive keeps the loop invariant, with the cursor one further |
| Properties.ProgressDirective | src/majsdown/converter.cpp:132-183 | running a terminated directive keeps the loop invariant, with the cursor past its terminator |
| Properties.ProgressFailure | src/majsdown/converter.cpp:121-168 | at an unterminated directive the scan is complete and failed, and output and scratch already hold their final contents |
| Properties.ProgressAll | src/majsdown/converter.cpp:189 | at the end of the source the scan is complete and succeeded |
| Properties.RenderAppend | src/majsdown/converter.cpp:32 | the one interpreter carries its state across segments: rendering `a + b` renders `a`, then `b` from the state `a` left |
| Properties.LexCovers | src/majsdown/converter.cpp:81-189 | the scan consumes a prefix of the source exactly as spelled: all of it on success, otherwise up to the unterminated directive that the failure reports |
| Properties.LexRoundTrip | src/majsdown/converter.cpp:81-189 | a successful scan spells the whole source back |
| Properties.LexFailure | src/majsdown/converter.cpp:121-168 | a scan fails only at an `@@$` or `@@{` whose disambiguator is the last byte or that has no terminator after it, and everything before it is spelled back |
| Properties.LexBodies | src/majsdown/converter.cpp:134-160 | a statement body never contains a newline, and an expression body never contains a `}` |
| Properties.RenderLiterals | src/majsdown/converter.cpp:85-91 | literal segments emit their bytes and leave the engine alone |
| Properties.LexLiteralRun | src/majsdown/converter.cpp:85-117 | a run of bytes none of which starts a directive is scanned as that many literals |
| Properties.LexNoDirective | src/majsdown/converter.cpp:81-117 | the scan is all literals and succeeds exactly when no `@@$` or `@@{` starts at or after the index |
| Properties.NoAtIsIdentity | src/majsdown/converter.cpp:81-91 | a source without `@` is copied byte for byte, the engine is untouched, and the conversion succeeds |
| Properties.PassThroughAt | src/majsdown/converter.cpp:96-117 | an `@` not followed by `@`, or `@@` followed by neither `$` nor `{` or by nothing, yields one literal `@`, and scanning goes on at the next byte |
| Properties.DirectiveAtEnd | src/majsdown/converter.cpp:121-128 | `@@$` or `@@{` as the last three bytes makes the scan that reaches it fail, and the conversion of the whole source (`Lex(src, 0)`) fail |
| Properties.TailReached | src/majsdown/converter.cpp:81-128 | with `@@$` or `@@{` as the last three bytes, every scan starting before them fails: no body can end inside them, so the scan always reaches them |
| Properties.StatementAt | src/majsdown/converter.cpp:132-155 | `@@$` yields a statement whose body runs to the first newline `j`; scanning resumes at `j + 1`, so the newline is not emitted |
| Properties.StatementUnterminated | src/majsdown/converter.cpp:137-143 | when the scan reaches `@@$` with no newline after it, the conversion fails there |
| Properties.ExpressionAt | src/majsdown/converter.cpp:157-183 | `@@{` yields an expression whose body runs to the first `}` at `j`, with no brace balancing; scanning resumes at `j + 1` |
| Properties.ExpressionUnterminated | src/majsdown/converter.cpp:162-168 | when the scan reaches `@@{` with no `}` after it, the conversion fails there |
| Properties.StatementSplice | src/majsdown/converter.cpp:132-155 | between two runs of text without `@`, a statement leaves only the two runs in the output, and the engine ends in the state the statement left |
| Properties.ExpressionSplice | src/majsdown/converter.cpp:157-183 | between two runs of text without `@`, an expression's output is spliced in between the runs |
| Properties.StatementThenExpressionSplice | src/majsdown/converter.cpp:32-183 | a statement and then an expression between two runs without `@`: the one interpreter runs the expression in the state the statement left, and only the expression's output appears between the runs |
| Scenarios.ExpressionInLine | test/converter.t.cpp:164-175 | `hello @@{1 + 5} world` becomes `hello `, then what `majsdown_set_output(1 + 5);` outputs, then ` world` |
| Scenarios.StatementLine | test/converter.t.cpp:390-400 | a statement line with a trailing comment leaves only the newline before it |
| Scenarios.StatementThenExpression | test/converter.t.cpp:130-142 | `@@$ var i = 10;` and then `@@{i + 5}` on the next line: the expression's script runs in the state the statement left, and its output is what stands between the two newlines |
| Scenarios.EmptyStatement | test/converter.t.cpp:738-748 | `@@$` followed directly by a newline runs the empty script and leaves only the newline before it |
| Scenarios.NestedBraces | src/majsdown/converter.cpp:160 | in `@@{ f({}) }` the body stops at the first `}`, and the rest `) }` is copied as literals |

## Left out

- The mujs binding in `src/majsdown/js_interpreter.cpp` is not modelled:
  `js_newstate`, `js_dostring`, the `tl_guard` save and restore of
  thread-local pointers, and `majsdown_include`, which reads a file.
  JavaScript itself is not modelled either. The engine is the abstract
  function `run`, so values such as `15` are results of `run`, not something
  proved.
- Engine.Interpreter.InterpretDiscard: drops anything the script outputs. In
  the source, a statement that calls `majsdown_set_output` while output is
  discarded hits a null buffer pointer. That path is not modelled.
- Engine.Interpreter.Interpret: passes the whole script. `js_dostring` reads
  a C string, so a script with an embedded NUL byte is cut short there. This
  is not modelled.
- `js_dostring` reports script errors itself and does not signal them to
  the converter. So in the model an engine error is just one more result of
  `run`, and it never makes the conversion fail.
- The text of the `std::cerr` messages is not modelled. Failure is the
  `false` result and the `Failure` value of `Lex`. The `{` branch's message
  says "missing newline" although it is a `}` that is missing.
- `std::size_t` wrap-around in `curr_idx + n_steps` and `curr_idx + 3` is not
  modelled, because indices are unbounded integers. A source would need
  about 2^64 bytes to wrap.
- The thread-local scratch string is a `StringBuffer` that the caller
  passes in. Such a parameter can be any buffer, so `Convert` requires it to
  be a different object from the output buffer. In the source,
  `get_tl_buffer()` has external linkage, so a caller could declare it and
  pass its string as the output. But no header declares it, and no caller in
  the repository does so. The model does not cover that aliasing.
- `converter`'s `unique_ptr` to its implementation, the constructors and the
  destructors hold no behaviour beyond forwarding. They are modelled only as
  the `impl` field.
- `src/majsdown-converter/main.cpp` is not modelled. It reads stdin, writes
  stdout and sets the exit code, which is all I/O.
- The `config` struct and the `err_stream` constructor from
  `src/majsdown/converter.hpp` are not modelled. That header is the later
  revision, and the `.cpp` has neither.
- Behaviour that only the tests of the later revision expect is not
  modelled: `\@@` escapes, block statements, fence decorators, brace
  balancing, statement batching, two-pass conversions and line diagnostics.
  The tests that expect it (for example `test/converter.t.cpp:222-233`,
  `296-310` and `750-761`) contradict `converter.cpp` and are not followed.
  The tests that write temporary files are not modelled either.
