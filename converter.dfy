/**
 * The converter: one left-to-right pass over the source that copies ordinary
 * bytes to the output buffer and hands the body of each `@@$ ...\n` and
 * `@@{...}` directive to a fresh JavaScript interpreter.
 */
module Converter {
  import opened Wrappers
  import opened Buffers
  import opened Engine
  import opened Cursors
  import opened Directives
  import Properties

  class ConverterImpl {
    constructor ()
    {
    }

    /**
     * Converts `source`, appending the result to `output`. The interpreter is
     * created here, so every call starts from the engine state `init`;
     * `scratch` is the calling thread's scratch buffer (`get_tl_buffer()`).
     * Success depends on the source alone; the output is the rendering of
     * the scanned segments, already appended when the scan stops on a failure.
     */
    method Convert<S>(output: StringBuffer, source: string, scratch: StringBuffer,
                      init: S, run: (S, string) -> (S, string)) returns (ok: bool)
      requires output != scratch
      modifies output, scratch
      ensures ok <==> Lex(source, 0).failure.None?
      ensures output.text == old(output.text) + Render(Lex(source, 0).segments, init, run).text
      ensures scratch.text == LastScript(Lex(source, 0).segments, old(scratch.text))
    {
      var ji := new Interpreter(init, run);
      var cursor := new Cursor(source);
      ghost var done: seq<Segment> := [];
      ghost var pos: nat := 0;
      Properties.ProgressStart(source, init, run, output.text, scratch.text);

      while !cursor.IsDone()
        invariant fresh(ji) && fresh(cursor)
        invariant ji.run == run && cursor.source == source && cursor.curr == pos && pos <= |source|
        invariant Properties.Progress(source, init, run, pos, done, old(output.text), old(scratch.text),
                                      output.text, ji.state, scratch.text)
        decreases |source| - pos
      {
        var c, literal, d := Inspect(cursor);

        if literal {
          Properties.ProgressLiteral(source, init, run, pos, c, done, old(output.text), old(scratch.text),
                                     output.text, ji.state, scratch.text);
          output.AppendChar(c);
          cursor.StepFwd();
          done, pos := done + [Literal(c)], pos + 1;
          continue;
        }

        var jsStart := cursor.curr + 3;
        if jsStart >= |source| {
          // Unterminated directive: reached end of source.
          Properties.ProgressFailure(source, init, run, pos, done, old(output.text), old(scratch.text),
                                     output.text, ji.state, scratch.text);
          return false;
        }

        ghost var found := Find(source, Terminator(d), jsStart);
        ghost var out, st, scr := output.text, ji.state, scratch.text;
        ok := RunDirective(cursor, ji, output, scratch, d, jsStart);
        if !ok {
          Properties.ProgressFailure(source, init, run, pos, done, old(output.text), old(scratch.text), out, st, scr);
          return false;
        }
        Properties.ProgressDirective(source, init, run, pos, d, found.value, done,
                                     old(output.text), old(scratch.text), out, st, scr);
        ghost var seg := Directive(d, source[jsStart..found.value]);
        done, pos := done + [seg], found.value + 1;
      }
      Properties.ProgressAll(source, init, run, done, old(output.text), old(scratch.text),
                             output.text, ji.state, scratch.text);
      return true;
    }

    /**
     * Reads the byte `c` under the cursor and makes the loop's three checks,
     * in order: `c` is not '@'; '@' without a second '@'; '@@' followed by
     * neither '$' nor '{' (or by nothing). When one applies, `c` is to be
     * copied as it is; otherwise `d` is the disambiguator that follows '@@'.
     */
    method Inspect(cursor: Cursor) returns (c: char, literal: bool, d: char)
      requires !cursor.IsDone()
      ensures c == cursor.source[cursor.curr]
      ensures literal <==> !IsDirectiveStart(cursor.source, cursor.curr)
      ensures !literal ==> d == cursor.source[cursor.curr + 2]
    {
      c := cursor.CurrChar();
      d := c;
      literal := c != '@';
      if !literal {
        var next1 := cursor.Peek(1);
        literal := next1.None? || next1.value != '@';
        if !literal {
          var next2 := cursor.Peek(2);
          literal := next2.None? || (next2.value != '$' && next2.value != '{');
          if !literal {
            d := next2.value;
          }
        }
      }
    }

    /**
     * Runs the directive whose disambiguator `d` sits just before `jsStart`:
     * the branch on `d` is the source's, and its final "Fatal conversion
     * error" exit cannot be reached since `d` is `$` or `{`.
     */
    method RunDirective<S>(cursor: Cursor, ji: Interpreter<S>, output: StringBuffer, scratch: StringBuffer,
                           d: char, jsStart: nat)
      returns (ok: bool)
      requires d == '$' || d == '{'
      requires jsStart < |cursor.source|
      requires output != scratch
      modifies cursor, ji, output, scratch
      ensures var found := Find(cursor.source, Terminator(d), jsStart);
        ok == found.Some? &&
        (!ok ==> unchanged(cursor, ji, output, scratch)) &&
        (ok ==> var seg := Directive(d, cursor.source[jsStart..found.value]);
                cursor.curr == found.value + 1 &&
                scratch.text == ScriptOf(seg) &&
                ji.state == Effect(seg, old(ji.state), ji.run).state &&
                output.text == old(output.text) + Effect(seg, old(ji.state), ji.run).text)
    {
      if d == '$' {
        ok := InlineStatement(cursor, ji, output, scratch, jsStart);
      } else {
        assert d == '{';
        ok := InlineExpression(cursor, ji, output, scratch, jsStart);
      }
    }

    /**
     * The `@@$` branch, with the cursor on the first `@` and at least one byte
     * after the `$`: the body up to the next newline is copied into the scratch
     * buffer and executed with its output discarded; the cursor moves past the
     * newline. Fails, changing nothing, when no newline follows.
     */
    method InlineStatement<S>(cursor: Cursor, ji: Interpreter<S>, output: StringBuffer, scratch: StringBuffer,
                              jsStart: nat)
      returns (ok: bool)
      requires jsStart < |cursor.source|
      requires output != scratch
      modifies cursor, ji, scratch
      ensures var found := Find(cursor.source, '\n', jsStart);
        ok == found.Some? &&
        (!ok ==> unchanged(cursor, ji, scratch)) &&
        (ok ==> var seg := Statement(cursor.source[jsStart..found.value]);
                cursor.curr == found.value + 1 &&
                scratch.text == ScriptOf(seg) &&
                ji.state == Effect(seg, old(ji.state), ji.run).state &&
                output.text == old(output.text) + Effect(seg, old(ji.state), ji.run).text)
    {
      var jsEnd := cursor.FindNext('\n', jsStart);
      if jsEnd.None? {
        // Unterminated statement: missing newline.
        return false;
      }

      scratch.Clear();
      cursor.CopyRangeTo(scratch, jsStart, jsEnd.value);
      assert scratch.text == cursor.source[jsStart..jsEnd.value];
      ji.InterpretDiscard(scratch.text);
      assert output.text + [] == output.text;

      cursor.curr := jsEnd.value + 1;
      return true;
    }

    /**
     * The `@@{` branch, with the cursor on the first `@` and at least one byte
     * after the `{`: the body up to the first `}` (braces are not balanced) is
     * wrapped in `majsdown_set_output(...);` in the scratch buffer and executed,
     * its output appended to `output`; the cursor moves past the `}`. Fails,
     * changing nothing, when no `}` follows.
     */
    method InlineExpression<S>(cursor: Cursor, ji: Interpreter<S>, output: StringBuffer, scratch: StringBuffer,
                               jsStart: nat)
      returns (ok: bool)
      requires jsStart < |cursor.source|
      requires output != scratch
      modifies cursor, ji, output, scratch
      ensures var found := Find(cursor.source, '}', jsStart);
        ok == found.Some? &&
        (!ok ==> unchanged(cursor, ji, output, scratch)) &&
        (ok ==> var seg := Expression(cursor.source[jsStart..found.value]);
                cursor.curr == found.value + 1 &&
                scratch.text == ScriptOf(seg) &&
                ji.state == Effect(seg, old(ji.state), ji.run).state &&
                output.text == old(output.text) + Effect(seg, old(ji.state), ji.run).text)
    {
      var jsEnd := cursor.FindNext('}', jsStart);
      if jsEnd.None? {
        // Unterminated expression: missing `}`.
        return false;
      }
      ghost var body := cursor.source[jsStart..jsEnd.value];

      scratch.Clear();
      scratch.Append("majsdown_set_output(");
      assert scratch.text == "majsdown_set_output(";
      cursor.CopyRangeTo(scratch, jsStart, jsEnd.value);
      assert scratch.text == "majsdown_set_output(" + body;
      scratch.Append(");");
      ji.Interpret(output, scratch.text);

      cursor.curr := jsEnd.value + 1;
      return true;
    }
  }

  class Converter {
    const impl: ConverterImpl

    constructor ()
      ensures fresh(impl)
    {
      impl := new ConverterImpl();
    }

    /** Forwards to the implementation object. */
    method Convert<S>(output: StringBuffer, source: string, scratch: StringBuffer,
                      init: S, run: (S, string) -> (S, string)) returns (ok: bool)
      requires output != scratch
      modifies output, scratch
      ensures ok <==> Lex(source, 0).failure.None?
      ensures output.text == old(output.text) + Render(Lex(source, 0).segments, init, run).text
      ensures scratch.text == LastScript(Lex(source, 0).segments, old(scratch.text))
    {
      ok := impl.Convert(output, source, scratch, init, run);
    }
  }
}
