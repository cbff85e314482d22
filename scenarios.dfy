/**
 * Whole conversions of small sources, for any engine: the statement's state
 * change reaches the later expression, and expression output is spliced in.
 */
module Scenarios {
  import opened Wrappers
  import opened Directives
  import Properties

  /** The body of `@@{` stops at the first `}`, even inside nested braces. */
  lemma NestedBraces()
    ensures Lex("@@{ f({}) }", 0) == Lexed([Expression(" f({"), Literal(')'), Literal(' '), Literal('}')], None)
  {
    var src := "@@{ f({}) }";
    assert forall k :: 3 <= k < 7 ==> src[k] != '}';
    Properties.ExpressionAt(src, 0, 7);
    Properties.LexLiteral(src, 8);
    Properties.LexLiteral(src, 9);
    Properties.LexLiteral(src, 10);
    assert Lex(src, 11) == Lexed([], None);
    assert Lex(src, 10) == Lexed([Literal('}')], None);
    assert Lex(src, 9) == Lexed([Literal(' '), Literal('}')], None);
    assert Lex(src, 8) == Lexed([Literal(')'), Literal(' '), Literal('}')], None);
    assert src[3..7] == " f({";
  }

  /** A statement with an empty body on a line of its own leaves only the newline before it. */
  lemma EmptyStatement<S>(st: S, run: (S, string) -> (S, string))
    ensures Lex("\n@@$\n", 0) == Lexed([Literal('\n'), Statement("")], None)
    ensures Render(Lex("\n@@$\n", 0).segments, st, run) == Rendered("\n", run(st, "").0)
  {
    var src := "\n@@$\n";
    Properties.LexLiteral(src, 0);
    Properties.StatementAt(src, 1, 4);
    assert Lex(src, 5) == Lexed([], None);
    assert src[4..4] == "";
    assert Lex(src, 1) == Lexed([Statement("")], None);
  }

  /** An expression's output is spliced into the middle of its line. */
  lemma ExpressionInLine<S>(st: S, run: (S, string) -> (S, string))
    ensures Lex("\nhello " + ("@@{" + "1 + 5" + "}") + " world\n", 0).failure == None
    ensures Render(Lex("\nhello " + ("@@{" + "1 + 5" + "}") + " world\n", 0).segments, st, run).text
            == "\nhello " + run(st, "majsdown_set_output(" + "1 + 5" + ");").1 + " world\n"
  {
    var pre, body, post := "\nhello ", "1 + 5", " world\n";
    assert forall k :: 0 <= k < |pre| ==> pre[k] != '@';
    assert forall k :: 0 <= k < |body| ==> body[k] != '}';
    assert forall k :: 0 <= k < |post| ==> post[k] != '@';
    Properties.ExpressionSplice(pre, body, post, st, run);
  }

  /** A statement on a line of its own, comment included, leaves only the newline before it. */
  lemma StatementLine<S>(st: S, run: (S, string) -> (S, string))
    ensures Lex("\n" + ("@@$" + " const value = 10; // the value" + "\n") + "", 0).failure == None
    ensures Render(Lex("\n" + ("@@$" + " const value = 10; // the value" + "\n") + "", 0).segments, st, run)
            == Rendered("\n", run(st, " const value = 10; // the value").0)
  {
    var pre, body, post := "\n", " const value = 10; // the value", "";
    assert forall k :: 0 <= k < |pre| ==> pre[k] != '@';
    assert forall k :: 0 <= k < |body| ==> body[k] != '\n';
    Properties.StatementSplice(pre, body, post, st, run);
    assert pre + post == "\n";
  }

  /**
   * A statement and then an expression on the next line: the one interpreter
   * runs the expression in the state the statement left.
   */
  lemma StatementThenExpression<S>(st: S, run: (S, string) -> (S, string))
    ensures Lex("\n" + (("@@$" + " var i = 10;" + "\n") + ("@@{" + "i + 5" + "}")) + "\n", 0)
            == Lexed([Literal('\n'), Statement(" var i = 10;"), Expression("i + 5"), Literal('\n')], None)
    ensures Render(Lex("\n" + (("@@$" + " var i = 10;" + "\n") + ("@@{" + "i + 5" + "}")) + "\n", 0).segments, st, run).text
            == "\n" + run(run(st, " var i = 10;").0, "majsdown_set_output(" + "i + 5" + ");").1 + "\n"
  {
    var pre, b1, b2, post := "\n", " var i = 10;", "i + 5", "\n";
    assert forall k :: 0 <= k < |pre| ==> pre[k] != '@';
    assert forall k :: 0 <= k < |b1| ==> b1[k] != '\n';
    assert forall k :: 0 <= k < |b2| ==> b2[k] != '}';
    Properties.StatementThenExpressionSplice(pre, b1, b2, post, st, run);
    assert Literals(pre) == [Literal('\n')];
  }
}
